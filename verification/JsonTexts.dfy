/** Which texts the reader skips, well-formed or not, said of the texts and not of the skip functions. */
module JsonTexts {
  import opened Json

  // ---------- Strings ----------

  /** A run of plain characters, backslashes with a character each, and `\u` with four. */
  ghost predicate Units(t: string) {
    if t == "" then true
    else if t[0] == '"' then false
    else if t[0] != '\\' then Units(t[1..])
    else if |t| < 2 then false
    else if t[1] != 'u' then Units(t[2..])
    else |t| >= 6 && Units(t[6..])
  }

  /** The first quote after the opening one, at `q`, does not follow a backslash. */
  ghost predicate PlainEnd(s: string, pos: nat, q: nat) {
    && pos < q < |s| && s[q] == '"' && s[q - 1] != '\\'
    && forall i | pos < i < q :: s[i] != '"'
  }

  /** A string from `pos` to `e`: it ends at the first quote, or, if that follows a backslash, at the quote
      that escapes leave over. */
  ghost predicate StringText(s: string, pos: nat, e: nat) {
    && pos < |s| && s[pos] == '"' && pos + 1 < e <= |s| && s[e - 1] == '"'
    && (PlainEnd(s, pos, e - 1) || ((forall q | pos < q < |s| :: !PlainEnd(s, pos, q)) && Units(s[pos + 1..e - 1])))
  }

  lemma {:induction false} SlowIff(s: string, p: nat, e: nat)
    ensures SlowString(s, p) == Ok(e) <==> p < e <= |s| && s[e - 1] == '"' && Units(s[p..e - 1])
    decreases |s| - p
  {
    if p < |s| {
      if s[p] == '"' {
        if p < e <= |s| && e - 1 > p { assert s[p..e - 1][0] == '"'; }
      } else {
        var n := if s[p] != '\\' then 1 else if p + 1 < |s| && s[p + 1] == 'u' then 6 else 2;
        if p + n <= |s| { SlowIff(s, p + n, e); }
        UnitsStep(s, p, e, n);
      }
    }
  }

  lemma UnitsStep(s: string, p: nat, e: nat, n: nat)
    requires p < |s| && s[p] != '"' && n == if s[p] != '\\' then 1 else if p + 1 < |s| && s[p + 1] == 'u' then 6 else 2
    ensures p < e <= |s| && s[e - 1] == '"' ==>
      (Units(s[p..e - 1]) <==> p + n < e && Units(s[p + n..e - 1]))
  {
    if p < e <= |s| && s[e - 1] == '"' {
      var t := s[p..e - 1];
      assert e - 1 > p && t[0] == s[p];
      if |t| >= 2 { assert t[1] == s[p + 1]; }
      if |t| >= n { assert t[n..] == s[p + n..e - 1]; }
    }
  }

  lemma StringIff(s: string, pos: nat, e: nat)
    ensures SkipString(s, pos) == Ok(e) <==> StringText(s, pos, e)
  {
    hide SlowString, Units;
    if pos < |s| && s[pos] == '"' {
      var closing := FindQuote(s, pos + 1);
      SlowIff(s, pos + 1, e);
      if closing < |s| && s[closing - 1] != '\\' {
        assert PlainEnd(s, pos, closing);
      } else {
        forall q | pos < q < |s| ensures !PlainEnd(s, pos, q) {
          if q < closing { assert s[q] != '"'; } else if q > closing { assert s[closing] == '"'; }
        }
      }
    }
  }

  // ---------- Numbers ----------

  predicate Decimal(c: char) { '0' <= c <= '9' }

  /** All digits from `a` on, up to `b`. */
  ghost predicate DigitRun(s: string, a: nat, b: nat) {
    a <= b <= |s| && (forall i | a <= i < b :: Decimal(s[i])) && (b < |s| ==> !Decimal(s[b]))
  }

  /** One character of `cs`, if it is there. */
  ghost predicate OneOf(s: string, a: nat, b: nat, cs: set<char>) {
    b == if a < |s| && s[a] in cs then a + 1 else a
  }

  /** Sign, digits, point, digits, the letter of the exponent, a minus sign, digits; each taken if it is there. */
  ghost predicate NumberParts(s: string, pos: nat, a: nat, b: nat, c: nat, d: nat, f: nat, g: nat, e: nat) {
    && OneOf(s, pos, a, {'-'}) && DigitRun(s, a, b) && OneOf(s, b, c, {'.'}) && DigitRun(s, c, d)
    && OneOf(s, d, f, {'e', 'E'}) && OneOf(s, f, g, {'-'}) && DigitRun(s, g, e)
  }

  ghost predicate NumberText(s: string, pos: nat, e: nat) {
    exists a: nat, b: nat, c: nat, d: nat, f: nat, g: nat :: NumberParts(s, pos, a, b, c, d, f, g, e)
  }

  lemma {:induction false} DigitsIff(s: string, a: nat, b: nat)
    requires a <= |s|
    ensures SkipDigits(s, a) == b <==> DigitRun(s, a, b)
    decreases |s| - a
  {
    if a < |s| && IsDigit(s[a]) { DigitsIff(s, a + 1, b); }
  }

  lemma CharIff(s: string, a: nat, b: nat, cs: set<char>)
    requires a <= |s|
    ensures SkipChar(s, a, cs) == b <==> OneOf(s, a, b, cs)
  {
  }

  /** The parts of a number are where the reader finds them. */
  lemma PartsFound(s: string, pos: nat, a: nat, b: nat, c: nat, d: nat, f: nat, g: nat, e: nat)
    requires pos < |s| && NumberParts(s, pos, a, b, c, d, f, g, e)
    ensures SkipNumber(s, pos) == e
  {
    hide SkipDigits, SkipChar, OneOf, DigitRun;
    CharIff(s, pos, a, {'-'});
    DigitsIff(s, a, b);
    CharIff(s, b, c, {'.'});
    DigitsIff(s, c, d);
    CharIff(s, d, f, {'e', 'E'});
    CharIff(s, f, g, {'-'});
    DigitsIff(s, g, e);
  }

  lemma NumberFound(s: string, pos: nat)
    requires pos < |s|
    ensures NumberText(s, pos, SkipNumber(s, pos))
  {
    hide SkipDigits, SkipChar, OneOf, DigitRun;
    var a := SkipChar(s, pos, {'-'});
    var b := SkipDigits(s, a);
    var c := SkipChar(s, b, {'.'});
    var d := SkipDigits(s, c);
    var f := SkipChar(s, d, {'e', 'E'});
    var g := SkipChar(s, f, {'-'});
    CharIff(s, pos, a, {'-'});
    DigitsIff(s, a, b);
    CharIff(s, b, c, {'.'});
    DigitsIff(s, c, d);
    CharIff(s, d, f, {'e', 'E'});
    CharIff(s, f, g, {'-'});
    DigitsIff(s, g, SkipDigits(s, g));
    assert NumberParts(s, pos, a, b, c, d, f, g, SkipNumber(s, pos));
  }

  lemma NumberIff(s: string, pos: nat, e: nat)
    requires pos < |s|
    ensures SkipNumber(s, pos) == e <==> NumberText(s, pos, e)
  {
    hide SkipNumber, NumberParts;
    NumberFound(s, pos);
    if NumberText(s, pos, e) {
      var a: nat, b: nat, c: nat, d: nat, f: nat, g: nat :| NumberParts(s, pos, a, b, c, d, f, g, e);
      PartsFound(s, pos, a, b, c, d, f, g, e);
    }
  }

  // ---------- Elements, pairs and containers ----------

  /** An element at `level`, from `pos` to `e`. A string with a colon behind it is a pair. Of the literals only
      the first letter is looked at. */
  ghost predicate Element(s: string, pos: nat, level: nat, e: nat)
    decreases |s| - pos, 2
  {
    && pos < |s|
    && if s[pos] == '[' then Container(s, pos, level, false, e)
       else if s[pos] == '{' then Container(s, pos, level, true, e)
       else if s[pos] == 't' || s[pos] == 'n' then e == pos + 4
       else if s[pos] == 'f' then e == pos + 5
       else if s[pos] == '-' || Decimal(s[pos]) then NumberText(s, pos, e)
       else exists q: nat :: StringText(s, pos, q) && if q < |s| && s[q] == ':' then Pair(s, pos, level, e) else e == q
  }

  /** A name, a colon directly behind it, and an element one level down, of at most 100. */
  ghost predicate Pair(s: string, pos: nat, level: nat, e: nat)
    decreases |s| - pos, 1
  {
    exists q: nat :: StringText(s, pos, q) && q + 1 < |s| && pos < q && s[q] == ':' && level + 1 <= 100 && Element(s, q + 1, level + 1, e)
  }

  ghost predicate Item(s: string, pos: nat, level: nat, isObject: bool, e: nat)
    decreases |s| - pos, 3
  {
    if isObject then Pair(s, pos, level, e) else Element(s, pos, level, e)
  }

  /** Items one level down: the first one directly behind `pos`, a comma between each two, the right bracket
      behind the last. */
  ghost predicate Listed(s: string, pos: nat, level: nat, isObject: bool, at: seq<nat>, end: seq<nat>)
    decreases |s| - pos, 0
  {
    && |at| == |end| > 0 && at[0] == pos + 1 && level + 1 <= 100
    && (forall i | 0 <= i < |at| :: pos < at[i] < |s| && end[i] < |s| && Item(s, at[i], level + 1, isObject, end[i]))
    && (forall i | 0 <= i < |at| - 1 :: s[end[i]] == ',' && at[i + 1] == end[i] + 1)
    && s[end[|end| - 1]] == if isObject then '}' else ']'
  }

  /** A container from its opening to its closing bracket. */
  ghost predicate Container(s: string, pos: nat, level: nat, isObject: bool, e: nat)
    decreases |s| - pos, 1
  {
    && pos + 1 < |s|
    && if s[pos + 1] == (if isObject then '}' else ']') then e == pos + 2
       else exists at: seq<nat>, end: seq<nat> :: Listed(s, pos, level, isObject, at, end) && e == end[|end| - 1] + 1
  }

  lemma {:induction false} PairIff(s: string, pos: nat, level: nat, e: nat)
    ensures SkipPair(s, pos, level) == Ok(e) <==> Pair(s, pos, level, e)
    decreases |s| - pos, 1
  {
    hide SkipElement, StringText, Element;
    var name := SkipString(s, pos);
    forall q: nat ensures name == Ok(q) <==> StringText(s, pos, q) { StringIff(s, pos, q); }
    if name.Ok? && name.pos + 1 < |s| {
      ElementIff(s, name.pos + 1, level + 1, e);
    }
  }

  lemma {:induction false} ElementIff(s: string, pos: nat, level: nat, e: nat)
    requires pos < |s|
    ensures SkipElement(s, pos, level) == Ok(e) <==> Element(s, pos, level, e)
    decreases |s| - pos, 2
  {
    hide SkipNumber, SkipString, SkipPair, SkipContainer, NumberText, StringText, Pair, Container;
    forall q: nat ensures SkipString(s, pos) == Ok(q) <==> StringText(s, pos, q) { StringIff(s, pos, q); }
    NumberIff(s, pos, e);
    PairIff(s, pos, level, e);
    ContainerIff(s, pos, level, false, e);
    ContainerIff(s, pos, level, true, e);
    NoString(s, pos);
  }

  lemma NoString(s: string, pos: nat)
    requires pos < |s|
    ensures s[pos] != '"' ==> SkipString(s, pos) == Err
  {
  }

  lemma ItemIff(s: string, pos: nat, level: nat, isObject: bool, e: nat)
    requires pos < |s|
    ensures (if isObject then SkipPair(s, pos, level) else SkipElement(s, pos, level)) == Ok(e) <==> Item(s, pos, level, isObject, e)
    decreases |s| - pos, 3
  {
    hide SkipPair, SkipElement, Pair, Element;
    if isObject { PairIff(s, pos, level, e); } else { ElementIff(s, pos, level, e); }
  }

  /** What the loop over the items has got over. */
  lemma {:induction false} ItemsFound(s: string, pos: nat, level: nat, isObject: bool) returns (at: seq<nat>, end: seq<nat>)
    requires SkipItems(s, pos + 1, level, isObject).Ok?
    ensures Listed(s, pos, level, isObject, at, end)
    ensures SkipItems(s, pos + 1, level, isObject) == Ok(end[|end| - 1] + 1)
    decreases |s| - (pos + 1), 4
  {
    hide SkipPair, SkipElement, Item;
    var item := if isObject then SkipPair(s, pos + 1, level + 1) else SkipElement(s, pos + 1, level + 1);
    ItemIff(s, pos + 1, level + 1, isObject, item.pos);
    if s[item.pos] == ',' {
      at, end := ItemsFound(s, item.pos, level, isObject);
      ListedMore(s, pos, level, isObject, item.pos, at, end);
      at, end := [pos + 1] + at, [item.pos] + end;
    } else {
      at, end := [pos + 1], [item.pos];
    }
  }

  lemma ListedMore(s: string, pos: nat, level: nat, isObject: bool, e: nat, at: seq<nat>, end: seq<nat>)
    requires pos + 1 < e < |s| && s[e] == ',' && Item(s, pos + 1, level + 1, isObject, e) && Listed(s, e, level, isObject, at, end)
    ensures Listed(s, pos, level, isObject, [pos + 1] + at, [e] + end)
  {
    hide Item;
    var at', end' := [pos + 1] + at, [e] + end;
    forall i | 0 <= i < |at'| ensures pos < at'[i] < |s| && end'[i] < |s| && Item(s, at'[i], level + 1, isObject, end'[i]) {
      if i > 0 { assert at'[i] == at[i - 1] && end'[i] == end[i - 1]; }
    }
    forall i | 0 <= i < |at'| - 1 ensures s[end'[i]] == ',' && at'[i + 1] == end'[i] + 1 {
      if i > 0 { assert end'[i] == end[i - 1] && at'[i + 1] == at[i]; }
    }
  }

  lemma ListedRest(s: string, pos: nat, level: nat, isObject: bool, at: seq<nat>, end: seq<nat>)
    requires Listed(s, pos, level, isObject, at, end) && |at| > 1 && pos + 1 < end[0]
    requires forall i | 0 <= i < |at| :: at[i] < end[i]
    ensures Listed(s, end[0], level, isObject, at[1..], end[1..])
  {
    hide Item;
    var at', end' := at[1..], end[1..];
    forall i | 0 <= i < |at'| ensures end[0] < at'[i] { Increasing(s, pos, level, isObject, at, end, i + 1); }
  }

  lemma {:induction false} Increasing(s: string, pos: nat, level: nat, isObject: bool, at: seq<nat>, end: seq<nat>, i: nat)
    requires Listed(s, pos, level, isObject, at, end) && 0 < i < |at| && forall j | 0 <= j < |at| :: at[j] < end[j]
    ensures end[0] < at[i]
    decreases i
  {
    hide Item;
    if i > 1 { Increasing(s, pos, level, isObject, at, end, i - 1); }
  }

  /** Whatever is listed like that, the loop gets over. */
  lemma {:induction false} ListedFound(s: string, pos: nat, level: nat, isObject: bool, at: seq<nat>, end: seq<nat>)
    requires Listed(s, pos, level, isObject, at, end)
    ensures SkipItems(s, pos + 1, level, isObject) == Ok(end[|end| - 1] + 1)
    decreases |s| - (pos + 1), 5
  {
    hide SkipPair, SkipElement, Item;
    forall i | 0 <= i < |at| ensures at[i] < end[i] {
      ItemIff(s, at[i], level + 1, isObject, end[i]);
    }
    ItemIff(s, at[0], level + 1, isObject, end[0]);
    if |at| > 1 {
      ListedRest(s, pos, level, isObject, at, end);
      ListedFound(s, end[0], level, isObject, at[1..], end[1..]);
    }
  }

  lemma {:induction false} ContainerIff(s: string, pos: nat, level: nat, isObject: bool, e: nat)
    requires pos < |s|
    ensures SkipContainer(s, pos, level, isObject) == Ok(e) <==> Container(s, pos, level, isObject, e)
    decreases |s| - pos, 1
  {
    hide SkipItems, Listed;
    if pos + 1 < |s| && s[pos + 1] != Closing(isObject) {
      if SkipItems(s, pos + 1, level, isObject).Ok? {
        var at, end := ItemsFound(s, pos, level, isObject);
      }
      forall at: seq<nat>, end: seq<nat> | Listed(s, pos, level, isObject, at, end)
        ensures |end| > 0 && SkipItems(s, pos + 1, level, isObject) == Ok(end[|end| - 1] + 1)
      {
        ListedFound(s, pos, level, isObject, at, end);
        EndsSome(s, pos, level, isObject, at, end);
      }
    }
  }

  lemma EndsSome(s: string, pos: nat, level: nat, isObject: bool, at: seq<nat>, end: seq<nat>)
    requires Listed(s, pos, level, isObject, at, end)
    ensures |end| > 0
  {
  }

  // ---------- Iteration ----------

  /** Elements at `at`, each but the last with a comma behind it, where the next one begins. */
  ghost predicate Chain(s: string, pos: nat, level: nat, at: seq<nat>, end: seq<nat>) {
    && |at| == |end| > 0 && at[0] == pos
    && Elements(s, level, at, end) && Linked(s, at, end) && s[end[|end| - 1]] != ','
  }

  ghost predicate Elements(s: string, level: nat, at: seq<nat>, end: seq<nat>)
    requires |at| == |end|
  {
    forall i | 0 <= i < |at| :: at[i] < |s| && end[i] < |s| && Element(s, at[i], level, end[i])
  }

  ghost predicate Linked(s: string, at: seq<nat>, end: seq<nat>)
    requires |at| == |end|
  {
    forall i | 0 <= i < |at| - 1 :: end[i] < |s| && s[end[i]] == ',' && at[i + 1] == end[i] + 1
  }

  lemma {:induction false} VisitsFound(s: string, pos: nat, level: nat) returns (end: seq<nat>)
    requires pos < |s| && Visits(s, pos, level).Visited?
    ensures Chain(s, pos, level, Visits(s, pos, level).at, end)
    decreases |s| - pos
  {
    hide SkipElement, Element;
    var next := SkipElement(s, pos, level);
    ElementIff(s, pos, level, next.pos);
    if s[next.pos] == ',' {
      end := VisitsFound(s, next.pos + 1, level);
      ChainMore(s, pos, level, next.pos, Visits(s, next.pos + 1, level).at, end);
      end := [next.pos] + end;
    } else {
      end := [next.pos];
    }
  }

  lemma ChainMore(s: string, pos: nat, level: nat, e: nat, at: seq<nat>, end: seq<nat>)
    requires pos < e < |s| && s[e] == ',' && Element(s, pos, level, e) && Chain(s, e + 1, level, at, end)
    ensures Chain(s, pos, level, [pos] + at, [e] + end)
  {
    hide Element, Linked;
    LinkedMore(s, pos, e, at, end);
    assert ([e] + end)[|end|] == end[|end| - 1];
  }

  lemma LinkedMore(s: string, pos: nat, e: nat, at: seq<nat>, end: seq<nat>)
    requires e < |s| && s[e] == ',' && |at| == |end| > 0 && at[0] == e + 1 && Linked(s, at, end)
    ensures Linked(s, [pos] + at, [e] + end)
  {
    var at', end' := [pos] + at, [e] + end;
    forall i | 0 <= i < |at'| - 1 ensures end'[i] < |s| && s[end'[i]] == ',' && at'[i + 1] == end'[i] + 1 {
      assert at'[i + 1] == at[i];
      if i > 0 { assert end'[i] == end[i - 1]; }
    }
  }

  lemma ChainRest(s: string, pos: nat, level: nat, at: seq<nat>, end: seq<nat>)
    requires Chain(s, pos, level, at, end) && |at| > 1
    ensures Chain(s, end[0] + 1, level, at[1..], end[1..])
  {
    hide Element;
  }

  lemma {:induction false} ChainVisited(s: string, pos: nat, level: nat, at: seq<nat>, end: seq<nat>)
    requires Chain(s, pos, level, at, end)
    ensures Visits(s, pos, level) == Visited(at)
    decreases |s| - pos
  {
    hide SkipElement, Element;
    ElementIff(s, pos, level, end[0]);
    if |at| > 1 {
      ChainRest(s, pos, level, at, end);
      ChainVisited(s, end[0] + 1, level, at[1..], end[1..]);
    }
    assert at == [at[0]] + at[1..];
  }

  /** On every text, iteration visits exactly a chain of elements behind the opening bracket, one level down. */
  lemma WalkIff(s: string, pos: nat, level: nat, first: nat, below: nat, at: seq<nat>)
    requires pos < |s| && first == pos + 1 && below == level + 1
    ensures Walk(s, pos, level) == Visited(at) <==>
            && (s[pos] == '[' || s[pos] == '{') && first < |s| && below <= 100
            && if s[first] == '}' || s[first] == ']' then at == [] else exists end: seq<nat> :: Chain(s, first, below, at, end)
  {
    hide Visits, Chain;
    if first < |s| {
      if Visits(s, first, below).Visited? { var end := VisitsFound(s, first, below); }
      forall end: seq<nat> | Chain(s, first, below, at, end) ensures Visits(s, first, below) == Visited(at) {
        ChainVisited(s, first, below, at, end);
      }
    }
  }

  /** A semicolon where the colon should be: refused. */
  lemma NeedsColon()
    ensures SkipElement("{\"a\";1}", 0, 0) == Err
  {
    var s := "{\"a\";1}";
    assert FindQuote(s, 2) == 3;
    assert SkipString(s, 1) == Ok(4);
    assert SkipPair(s, 1, 1) == Err;
  }
}
