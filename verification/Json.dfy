/** The zero-copy JSON reader: finding the end of an element without parsing it. */
module Json {

  const MAX_DEPTH := 100

  /** A position, or an exception. */
  datatype Result = Ok(pos: nat) | Err

  predicate IsDigit(c: char) { '0' <= c <= '9' }

  // ---------- What the skip functions compute ----------

  /** `memchr` for the quote. */
  function FindQuote(s: string, p: nat): (r: nat)
    requires p <= |s|
    ensures p <= r <= |s| && (r < |s| ==> s[r] == '"') && forall i | p <= i < r :: s[i] != '"'
    decreases |s| - p
  {
    if p == |s| || s[p] == '"' then p else FindQuote(s, p + 1)
  }

  /** The slow path: over escapes, up to the closing quote. */
  function SlowString(s: string, p: nat): (r: Result)
    ensures r.Ok? ==> p < r.pos <= |s|
    decreases |s| - p
  {
    if p >= |s| then Err
    else if s[p] == '"' then Ok(p + 1)
    else if s[p] != '\\' then SlowString(s, p + 1)
    else if p + 1 >= |s| then Err
    else if s[p + 1] != 'u' then SlowString(s, p + 2)
    else if p + 5 >= |s| then Err
    else SlowString(s, p + 6)
  }

  function SkipString(s: string, pos: nat): (r: Result)
    ensures r.Ok? ==> pos < r.pos <= |s|
  {
    if pos >= |s| || s[pos] != '"' then Err
    else
      var closing := FindQuote(s, pos + 1);
      if closing < |s| && s[closing - 1] != '\\' then Ok(closing + 1) else SlowString(s, pos + 1)
  }

  function SkipDigits(s: string, p: nat): (r: nat)
    requires p <= |s|
    ensures p <= r <= |s|
    decreases |s| - p
  {
    if p < |s| && IsDigit(s[p]) then SkipDigits(s, p + 1) else p
  }

  function SkipChar(s: string, p: nat, c: set<char>): (r: nat)
    requires p <= |s|
    ensures p <= r <= |s|
  {
    if p < |s| && s[p] in c then p + 1 else p
  }

  function SkipNumber(s: string, pos: nat): (r: nat)
    requires pos < |s|
    ensures pos <= r <= |s| && (s[pos] == '-' || IsDigit(s[pos]) ==> pos < r)
  {
    var integer := SkipDigits(s, SkipChar(s, pos, {'-'}));
    var fraction := SkipDigits(s, SkipChar(s, integer, {'.'}));
    SkipDigits(s, SkipChar(s, SkipChar(s, fraction, {'e', 'E'}), {'-'}))
  }

  /** `JSON(pos, end, level)` can be constructed. */
  predicate CanInit(s: string, pos: nat, level: nat) {
    pos < |s| && level <= MAX_DEPTH
  }

  function SkipElement(s: string, pos: nat, level: nat): (r: Result)
    requires pos < |s|
    ensures r.Ok? ==> pos < r.pos
    decreases |s| - pos, 2
  {
    var c := s[pos];
    if c == '{' then SkipContainer(s, pos, level, true)
    else if c == '[' then SkipContainer(s, pos, level, false)
    else if c == 't' then Ok(pos + 4)
    else if c == 'f' then Ok(pos + 5)
    else if c == 'n' then Ok(pos + 4)
    else if c == '-' || IsDigit(c) then Ok(SkipNumber(s, pos))
    else if c == '"' then
      var after := SkipString(s, pos);
      if after.Ok? && after.pos < |s| && s[after.pos] == ':' then SkipPair(s, pos, level) else after
    else Err
  }

  function SkipPair(s: string, pos: nat, level: nat): (r: Result)
    ensures r.Ok? ==> pos < r.pos
    decreases |s| - pos, 1
  {
    var name := SkipString(s, pos);
    if name.Err? || name.pos >= |s| || s[name.pos] != ':' || !CanInit(s, name.pos + 1, level + 1) then Err
    else SkipElement(s, name.pos + 1, level + 1)
  }

  /** `skipArray` and `skipObject` */
  function SkipContainer(s: string, pos: nat, level: nat, isObject: bool): (r: Result)
    requires pos < |s|
    ensures r.Ok? ==> pos < r.pos
    decreases |s| - pos, 1
  {
    if pos + 1 >= |s| then Err
    else if s[pos + 1] == Closing(isObject) then Ok(pos + 2)
    else SkipItems(s, pos + 1, level, isObject)
  }

  function Closing(isObject: bool): char { if isObject then '}' else ']' }

  /** The loop over the elements of a container at `level`. */
  function SkipItems(s: string, pos: nat, level: nat, isObject: bool): (r: Result)
    ensures r.Ok? ==> pos < r.pos
    decreases |s| - pos, 3
  {
    if !CanInit(s, pos, level + 1) then Err
    else
      var item := if isObject then SkipPair(s, pos, level + 1) else SkipElement(s, pos, level + 1);
      if item.Err? || item.pos >= |s| then Err
      else if s[item.pos] == ',' then SkipItems(s, item.pos + 1, level, isObject)
      else if s[item.pos] == Closing(isObject) then Ok(item.pos + 1)
      else Err
  }

  // ---------- Iteration ----------

  /** The positions an iteration visits, or an exception. */
  datatype Visit = Visited(at: seq<nat>) | Failed

  /** From the element at `pos` on: `operator++` until the end. */
  function Visits(s: string, pos: nat, level: nat): (r: Visit)
    requires pos < |s|
    decreases |s| - pos
  {
    var next := SkipElement(s, pos, level);
    if next.Err? || next.pos >= |s| then Failed
    else if s[next.pos] != ',' then Visited([pos])
    else if next.pos + 1 >= |s| then Failed
    else
      var rest := Visits(s, next.pos + 1, level);
      if rest.Failed? then Failed else Visited([pos] + rest.at)
  }

  /** From `begin()` to `end()`, which is one level down even when there is nothing to visit. */
  function Walk(s: string, pos: nat, level: nat): (r: Visit)
    requires pos < |s|
  {
    if (s[pos] != '[' && s[pos] != '{') || pos + 1 >= |s| || level + 1 > MAX_DEPTH then Failed
    else if s[pos + 1] == '}' || s[pos + 1] == ']' then Visited([])
    else Visits(s, pos + 1, level + 1)
  }
}
