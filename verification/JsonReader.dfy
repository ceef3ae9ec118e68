/** The skip functions of the JSON reader as the loops they are. */
module JsonReader {
  import opened Json
  import opened JsonGrammar

  /** Looks for the quote first; walks over escapes only if a backslash stands before it. */
  method ReadString(s: string, begin: nat) returns (r: Result)
    ensures r == SkipString(s, begin)
  {
    var pos := begin;
    if pos >= |s| || s[pos] != '"' { return Err; }
    pos := pos + 1;
    var closing := FindQuote(s, pos);
    if closing < |s| && s[closing - 1] != '\\' { return Ok(closing + 1); }
    while pos < |s| && s[pos] != '"'
      invariant SlowString(s, pos) == SlowString(s, begin + 1)
      decreases |s| - pos
    {
      if s[pos] == '\\' {
        pos := pos + 1;
        if pos >= |s| { return Err; }
        if s[pos] == 'u' {
          pos := pos + 4;
          if pos >= |s| { return Err; }
        }
      }
      pos := pos + 1;
    }
    if pos >= |s| { return Err; }
    r := Ok(pos + 1);
  }

  method ReadNumber(s: string, begin: nat) returns (pos: nat)
    requires begin < |s|
    ensures pos == SkipNumber(s, begin)
  {
    pos := SkipChar(s, begin, {'-'});
    pos := ReadDigits(s, pos);
    pos := SkipChar(s, pos, {'.'});
    pos := ReadDigits(s, pos);
    pos := SkipChar(s, pos, {'e', 'E'});
    pos := SkipChar(s, pos, {'-'});
    pos := ReadDigits(s, pos);
  }

  method ReadDigits(s: string, begin: nat) returns (pos: nat)
    requires begin <= |s|
    ensures pos == SkipDigits(s, begin)
  {
    pos := begin;
    while pos < |s| && IsDigit(s[pos])
      invariant begin <= pos <= |s| && SkipDigits(s, pos) == SkipDigits(s, begin)
    {
      pos := pos + 1;
    }
  }

  method ReadElement(s: string, pos: nat, level: nat) returns (r: Result)
    requires pos < |s|
    ensures r == SkipElement(s, pos, level)
    decreases |s| - pos, 2
  {
    var c := s[pos];
    if c == '{' {
      r := ReadContainer(s, pos, level, true);
    } else if c == '[' {
      r := ReadContainer(s, pos, level, false);
    } else if c == 't' || c == 'n' {
      r := Ok(pos + 4);
    } else if c == 'f' {
      r := Ok(pos + 5);
    } else if c == '-' || IsDigit(c) {
      var end := ReadNumber(s, pos);
      r := Ok(end);
    } else if c == '"' {
      r := ReadString(s, pos);
      if r.Ok? && r.pos < |s| && s[r.pos] == ':' { r := ReadPair(s, pos, level); }
    } else {
      r := Err;
    }
  }

  method ReadPair(s: string, begin: nat, level: nat) returns (r: Result)
    ensures r == SkipPair(s, begin, level)
    decreases |s| - begin, 1
  {
    r := ReadString(s, begin);
    if r.Err? || r.pos >= |s| || s[r.pos] != ':' { return Err; }
    var pos := r.pos + 1;
    if !CanInit(s, pos, level + 1) { return Err; }
    r := ReadElement(s, pos, level + 1);
  }

  /** The loop that skips the elements of an array or the pairs of an object. */
  method ReadContainer(s: string, begin: nat, level: nat, isObject: bool) returns (r: Result)
    requires begin < |s|
    ensures r == SkipContainer(s, begin, level, isObject)
    decreases |s| - begin, 1
  {
    var pos := begin + 1;
    if pos >= |s| { return Err; }
    if s[pos] == Closing(isObject) { return Ok(pos + 1); }
    while true
      invariant begin < pos && SkipItems(s, pos, level, isObject) == SkipItems(s, begin + 1, level, isObject)
      decreases |s| - pos
    {
      if !CanInit(s, pos, level + 1) { return Err; }
      if isObject {
        r := ReadPair(s, pos, level + 1);
      } else {
        r := ReadElement(s, pos, level + 1);
      }
      if r.Err? || r.pos >= |s| { return Err; }
      if s[r.pos] == ',' {
        pos := r.pos + 1;
      } else if s[r.pos] == Closing(isObject) {
        return Ok(r.pos + 1);
      } else {
        return Err;
      }
    }
  }

  /** An iterator at an element, at the end, or stopped by an exception. */
  datatype Iterator = Element(pos: nat) | End | Thrown

  /** `operator++` */
  method Advance(s: string, pos: nat, level: nat) returns (it: Iterator)
    requires pos < |s|
    ensures it.Element? ==> pos < it.pos < |s|
    ensures Visits(s, pos, level) == match it
                                     case End => Visited([pos])
                                     case Thrown => Failed
                                     case Element(next) => Prepend(pos, Visits(s, next, level))
  {
    var next := ReadElement(s, pos, level);
    if next.Err? || next.pos >= |s| { return Thrown; }
    if s[next.pos] != ',' { return End; }
    if next.pos + 1 >= |s| { return Thrown; }
    it := Element(next.pos + 1);
  }

  function Prepend(pos: nat, v: Visit): Visit {
    if v.Failed? then Failed else Visited([pos] + v.at)
  }

  datatype Size = Size(count: nat) | NoSize

  /** `size()`: counts the steps of an iteration. */
  method SizeOf(s: string, pos: nat, level: nat) returns (r: Size)
    requires pos < |s|
    ensures r == match Walk(s, pos, level) case Visited(at) => Size(|at|) case Failed => NoSize
  {
    hide SkipElement, Visits;
    if (s[pos] != '[' && s[pos] != '{') || pos + 1 >= |s| || level + 1 > MAX_DEPTH { return NoSize; }
    var it := if s[pos + 1] == '}' || s[pos + 1] == ']' then End else Element(pos + 1);
    var i := 0;
    ghost var total := Walk(s, pos, level);
    while it.Element?
      invariant it.Element? ==> pos < it.pos < |s|
      invariant it.End? ==> total.Visited? && |total.at| == i
      invariant it.Thrown? ==> total.Failed?
      invariant it.Element? ==> Ahead(total, Visits(s, it.pos, level + 1), i)
      decreases if it.Element? then |s| - it.pos else 0
    {
      it := Advance(s, it.pos, level + 1);
      i := i + 1;
    }
    r := if it.End? then Size(i) else NoSize;
  }

  /** `rest` is what is left to visit after `i` steps. */
  ghost predicate Ahead(total: Visit, rest: Visit, i: nat) {
    total.Failed? == rest.Failed? && (total.Visited? ==> |total.at| == i + |rest.at|)
  }

  /** On a well-formed container, `size()` is the number of its elements if and only if it is iterable. */
  method SizeOfContainer(s: string, pos: nat, level: nat, ghost v: Value) returns (r: Size)
    requires (v.Array? || v.Object?) && IsValue(v) && At(s, pos, TextOf(v))
    ensures r == Size(Count(v)) <==> Iterable(v, level)
  {
    hide TextOf, Walk, Starts, Count, Iterable;
    IterationVisits(s, pos, level, v);
    r := SizeOf(s, pos, level);
  }
}
