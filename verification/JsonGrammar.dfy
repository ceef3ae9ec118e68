/** JSON texts without whitespace, as sections 3 to 7 of RFC 8259 define them, and what the skip
    functions do on them. */
module JsonGrammar {
  import opened Json

  datatype Value =
    | Null | True | False
    | Number(minus: bool, integer: string, fraction: string, exponent: Exponent)
    | Text(body: string)
    | Array(items: Items)
    | Object(members: Members)

  datatype Exponent = NoExponent | Exponent(letter: char, mark: Mark, digits: string)
  datatype Mark = NoMark | Minus | Plus
  datatype Items = NoItems | Item(head: Value, tail: Items)
  datatype Members = NoMembers | Member(name: string, value: Value, tail: Members)

  // ---------- Well-formed values ----------

  ghost predicate AllDigits(t: string) {
    forall i | 0 <= i < |t| :: IsDigit(t[i])
  }

  predicate IsHex(c: char) { IsDigit(c) || 'a' <= c <= 'f' || 'A' <= c <= 'F' }

  predicate IsEscape(c: char) { c in {'"', '\\', '/', 'b', 'f', 'n', 'r', 't'} }

  /** The characters between the quotes of a string. */
  ghost predicate IsBody(t: string) {
    if t == "" then true
    else if t[0] == '"' then false
    else if t[0] != '\\' then t[0] >= ' ' && IsBody(t[1..])
    else if |t| >= 2 && IsEscape(t[1]) then IsBody(t[2..])
    else |t| >= 6 && t[1] == 'u' && IsHex(t[2]) && IsHex(t[3]) && IsHex(t[4]) && IsHex(t[5]) && IsBody(t[6..])
  }

  ghost predicate IsExponent(e: Exponent) {
    e.Exponent? ==> e.letter in {'e', 'E'} && e.digits != "" && AllDigits(e.digits)
  }

  ghost predicate IsValue(v: Value) {
    match v
    case Number(_, integer, fraction, exponent) =>
      && integer != "" && AllDigits(integer) && AllDigits(fraction) && (integer[0] == '0' ==> |integer| == 1)
      && IsExponent(exponent)
    case Text(body) => IsBody(body)
    case Array(items) => AreItems(items)
    case Object(members) => AreMembers(members)
    case _ => true
  }

  ghost predicate AreItems(vs: Items) {
    vs.Item? ==> IsValue(vs.head) && AreItems(vs.tail)
  }

  ghost predicate AreMembers(ms: Members) {
    ms.Member? ==> IsBody(ms.name) && IsValue(ms.value) && AreMembers(ms.tail)
  }

  // ---------- Their texts ----------

  function Quoted(body: string): string { ['"'] + body + ['"'] }

  function Sign(minus: bool): string { if minus then "-" else "" }

  function MarkText(m: Mark): string { if m.Plus? then "+" else Sign(m.Minus?) }

  function FractionText(f: string): string { if f == "" then "" else "." + f }

  function ExponentText(e: Exponent): string {
    if e.NoExponent? then "" else [e.letter] + (MarkText(e.mark) + e.digits)
  }

  function NumberText(v: Value): string
    requires v.Number?
  {
    Sign(v.minus) + (v.integer + (FractionText(v.fraction) + ExponentText(v.exponent)))
  }

  function TextOf(v: Value): string
    decreases v, 0
  {
    match v
    case Null => "null"
    case True => "true"
    case False => "false"
    case Number(_, _, _, _) => NumberText(v)
    case Text(body) => Quoted(body)
    case Array(items) => "[" + (if items.NoItems? then "" else ItemsText(items)) + "]"
    case Object(members) => "{" + (if members.NoMembers? then "" else MembersText(members)) + "}"
  }

  function ItemsText(vs: Items): string
    requires vs.Item?
    decreases vs, 0
  {
    TextOf(vs.head) + if vs.tail.NoItems? then "" else "," + ItemsText(vs.tail)
  }

  function PairText(name: string, v: Value): string
    decreases v, 1
  {
    Quoted(name) + ":" + TextOf(v)
  }

  function MembersText(ms: Members): string
    requires ms.Member?
    decreases ms, 0
  {
    PairText(ms.name, ms.value) + if ms.tail.NoMembers? then "" else "," + MembersText(ms.tail)
  }

  /** How many levels below its own a value reaches: a member's value is two levels down. */
  function Depth(v: Value): nat {
    match v
    case Array(items) => if items.NoItems? then 0 else 1 + ItemsDepth(items)
    case Object(members) => if members.NoMembers? then 0 else 2 + MembersDepth(members)
    case _ => 0
  }

  function Max(a: nat, b: nat): nat { if a > b then a else b }

  /** No number in the value has a plus sign in its exponent. */
  predicate Plain(v: Value) {
    match v
    case Number(_, _, _, exponent) => !HasPlus(exponent)
    case Array(items) => PlainItems(items)
    case Object(members) => PlainMembers(members)
    case _ => true
  }

  predicate HasPlus(e: Exponent) { e.Exponent? && e.mark.Plus? }

  predicate PlainItems(vs: Items) {
    vs.Item? ==> Plain(vs.head) && PlainItems(vs.tail)
  }

  predicate PlainMembers(ms: Members) {
    ms.Member? ==> Plain(ms.value) && PlainMembers(ms.tail)
  }

  function ItemsDepth(vs: Items): nat {
    if vs.NoItems? then 0 else Max(Depth(vs.head), ItemsDepth(vs.tail))
  }

  function MembersDepth(ms: Members): nat {
    if ms.NoMembers? then 0 else Max(Depth(ms.value), MembersDepth(ms.tail))
  }

  // ---------- Texts in a buffer ----------

  /** `t` stands at `pos`. */
  ghost predicate At(s: string, pos: nat, t: string) {
    pos + |t| <= |s| && s[pos..pos + |t|] == t
  }

  lemma AtSplit(s: string, pos: nat, t: string, u: string)
    requires At(s, pos, t + u)
    ensures At(s, pos, t) && At(s, pos + |t|, u)
  {
    assert s[pos..pos + |t|] == (t + u)[..|t|];
    assert s[pos + |t|..pos + |t| + |u|] == (t + u)[|t|..];
  }

  lemma AtChar(s: string, pos: nat, t: string, i: nat)
    requires At(s, pos, t) && i < |t|
    ensures pos + i < |s| && s[pos + i] == t[i]
  {
    assert s[pos..pos + |t|][i] == s[pos + i];
  }

  /** What follows cannot continue a number or make a string a name. */
  ghost predicate Stops(s: string, pos: nat) {
    pos >= |s| || (!IsDigit(s[pos]) && s[pos] !in {'.', 'e', 'E', '-', ':'})
  }

  // ---------- Strings ----------

  /** Inside a string a quote follows a backslash. */
  lemma {:induction false} QuoteIsEscaped(t: string, k: nat)
    requires IsBody(t) && k < |t| && t[k] == '"'
    ensures k > 0 && t[k - 1] == '\\'
    decreases |t|
  {
    if t[0] != '\\' {
      QuoteIsEscaped(t[1..], k - 1);
    } else if IsEscape(t[1]) {
      if k > 1 { QuoteIsEscaped(t[2..], k - 2); }
    } else {
      QuoteIsEscaped(t[6..], k - 6);
    }
  }

  /** The slow path walks over a body, escape by escape. */
  lemma {:induction false} SlowWalks(s: string, p: nat, t: string)
    requires IsBody(t) && At(s, p, t + ['"'])
    ensures SlowString(s, p) == Ok(p + |t| + 1)
    decreases |t|
  {
    if t == "" {
      AtChar(s, p, t + ['"'], 0);
    } else {
      hide At;
      AtChar(s, p, t + ['"'], 0);
      AtChar(s, p, t + ['"'], 1);
      AtChar(s, p, t + ['"'], |t|);
      var n := if t[0] != '\\' then 1 else if IsEscape(t[1]) then 2 else 6;
      WalkOn(s, p, t, n);
      SlowWalks(s, p + n, t[n..]);
    }
  }

  lemma WalkOn(s: string, p: nat, t: string, n: nat)
    requires At(s, p, t + ['"']) && n <= |t|
    ensures At(s, p + n, t[n..] + ['"'])
  {
    assert t + ['"'] == t[..n] + (t[n..] + ['"']);
    AtSplit(s, p, t[..n], t[n..] + ['"']);
  }

  /** Fast path or slow path: a string ends at its closing quote, whatever follows. */
  lemma StringSkips(s: string, pos: nat, t: string)
    requires IsBody(t) && At(s, pos, Quoted(t))
    ensures SkipString(s, pos) == Ok(pos + |Quoted(t)|)
  {
    hide IsBody, SlowString, At;
    assert Quoted(t) == ['"'] + (t + ['"']);
    AtSplit(s, pos, ['"'], t + ['"']);
    SlowWalks(s, pos + 1, t);
    var closing := FindQuote(s, pos + 1);
    var end := pos + 1 + |t|;
    AtChar(s, pos, Quoted(t), 0);
    AtChar(s, pos, Quoted(t), |t| + 1);
    if closing < end {
      var k := closing - pos - 1;
      AtChar(s, pos, Quoted(t), k + 1);
      QuoteIsEscaped(t, k);
      AtChar(s, pos, Quoted(t), k);
    }
  }

  // ---------- Numbers ----------

  lemma {:induction false} DigitsSkip(s: string, p: nat, t: string)
    requires AllDigits(t) && At(s, p, t) && (p + |t| == |s| || !IsDigit(s[p + |t|]))
    ensures SkipDigits(s, p) == p + |t|
    decreases |t|
  {
    if t != "" {
      AtChar(s, p, t, 0);
      assert t == t[..1] + t[1..];
      AtSplit(s, p, t[..1], t[1..]);
      DigitsSkip(s, p + 1, t[1..]);
    }
  }

  /** The character after a piece is the first of the next, or it stops the number. */
  ghost predicate Follows(s: string, p: nat, rest: string) {
    p <= |s| && At(s, p, rest) && Stops(s, p + |rest|)
  }

  lemma FollowsOn(s: string, p: nat, t: string, rest: string)
    requires Follows(s, p, t + rest)
    ensures Follows(s, p + |t|, rest) && At(s, p, t)
    ensures rest != "" ==> p + |t| < |s| && s[p + |t|] == rest[0]
    ensures rest == "" ==> Stops(s, p + |t|)
  {
    AtSplit(s, p, t, rest);
    if rest != "" { AtChar(s, p + |t|, rest, 0); }
  }

  lemma IntegerSkips(s: string, pos: nat, minus: bool, integer: string, rest: string)
    requires integer != "" && AllDigits(integer) && Follows(s, pos, Sign(minus) + (integer + rest))
    requires rest != "" ==> !IsDigit(rest[0])
    ensures SkipDigits(s, SkipChar(s, pos, {'-'})) == pos + |Sign(minus)| + |integer|
    ensures Follows(s, pos + |Sign(minus)| + |integer|, rest)
  {
    FollowsOn(s, pos, Sign(minus), integer + rest);
    if minus { AtChar(s, pos, Sign(minus), 0); }
    assert SkipChar(s, pos, {'-'}) == pos + |Sign(minus)|;
    FollowsOn(s, pos + |Sign(minus)|, integer, rest);
    DigitsSkip(s, pos + |Sign(minus)|, integer);
  }

  lemma FractionSkips(s: string, p: nat, f: string, rest: string)
    requires AllDigits(f) && Follows(s, p, FractionText(f) + rest)
    requires rest != "" ==> rest[0] in {'e', 'E'}
    ensures SkipDigits(s, SkipChar(s, p, {'.'})) == p + |FractionText(f)| && Follows(s, p + |FractionText(f)|, rest)
  {
    FollowsOn(s, p, FractionText(f), rest);
    if f != "" {
      AtChar(s, p, FractionText(f), 0);
      AtSplit(s, p, ".", f);
      DigitsSkip(s, p + 1, f);
    }
  }

  /** What `skipNumber` leaves of an exponent: everything from a plus sign on. */
  function Missed(e: Exponent): nat { if HasPlus(e) then 1 + |e.digits| else 0 }

  lemma ExponentSkips(s: string, p: nat, e: Exponent)
    requires IsExponent(e) && Follows(s, p, ExponentText(e))
    ensures var r := SkipDigits(s, SkipChar(s, SkipChar(s, p, {'e', 'E'}), {'-'}));
            r == p + |ExponentText(e)| - Missed(e) && (HasPlus(e) ==> r < |s| && s[r] == '+')
  {
    hide SkipDigits, AllDigits, At, Stops;
    if e.Exponent? {
      FollowsOn(s, p, [e.letter], MarkText(e.mark) + e.digits);
      AtChar(s, p, [e.letter], 0);
      if e.mark.Plus? {
        AtChar(s, p + 1, MarkText(e.mark) + e.digits, 0);
        NoDigits(s, p + 1);
      } else {
        assert e.digits + "" == e.digits;
        IntegerSkips(s, p + 1, e.mark.Minus?, e.digits, "");
      }
    } else {
      FollowsOn(s, p, "", "");
      StopsHere(s, p);
    }
  }

  lemma NoDigits(s: string, p: nat)
    requires p <= |s| && (p < |s| ==> !IsDigit(s[p]))
    ensures SkipDigits(s, p) == p
  {
  }

  lemma StopsHere(s: string, p: nat)
    requires p <= |s| && Stops(s, p)
    ensures SkipDigits(s, SkipChar(s, SkipChar(s, p, {'e', 'E'}), {'-'})) == p
  {
  }

  /** A number is skipped up to the plus sign of its exponent, or to its end. */
  lemma NumberSkips(s: string, pos: nat, v: Value)
    requires v.Number? && IsValue(v) && At(s, pos, NumberText(v)) && Stops(s, pos + |NumberText(v)|)
    ensures pos < |s| && (s[pos] == '-' || IsDigit(s[pos]))
    ensures var r := SkipNumber(s, pos);
            r == pos + |NumberText(v)| - Missed(v.exponent) && (!Plain(v) ==> r < |s| && s[r] == '+')
    ensures SkipNumber(s, pos) == pos + |NumberText(v)| <==> Plain(v)
  {
    hide SkipDigits, SkipChar, At, AllDigits, ExponentText, FractionText, NumberText, Stops, IsExponent, IsDigit,
         Missed, HasPlus, Plain, Sign;
    var e, f := ExponentText(v.exponent), FractionText(v.fraction);
    NumberStarts(v);
    NumberParts(v);
    AtChar(s, pos, NumberText(v), 0);
    AtFits(s, pos, NumberText(v));
    IntegerSkips(s, pos, v.minus, v.integer, f + e);
    FractionSkips(s, pos + |Sign(v.minus)| + |v.integer|, v.fraction, e);
    ExponentSkips(s, pos + |Sign(v.minus)| + |v.integer| + |f|, v.exponent);
  }

  /** A number that the grammar allows and `skipNumber` cuts in two. */
  lemma PlusIsCut()
    ensures SkipNumber("1e+5", 0) == 2
  {
    var v := Number(false, "1", "", Exponent('e', Plus, "5"));
    assert NumberText(v) == "1e+5" && "1e+5"[0..4] == "1e+5";
    NumberSkips("1e+5", 0, v);
  }

  lemma NumberParts(v: Value)
    requires v.Number?
    ensures var e, f := ExponentText(v.exponent), FractionText(v.fraction);
            && NumberText(v) == Sign(v.minus) + (v.integer + (f + e))
            && |NumberText(v)| == |Sign(v.minus)| + |v.integer| + |f| + |e|
    ensures Missed(v.exponent) == 0 <==> Plain(v)
    ensures HasPlus(v.exponent) <==> !Plain(v)
  {
  }

  lemma AtFits(s: string, pos: nat, t: string)
    requires At(s, pos, t)
    ensures pos + |t| <= |s|
  {
  }

  /** How the pieces of a number start. */
  lemma NumberStarts(v: Value)
    requires v.Number? && IsValue(v)
    ensures NumberText(v) != "" && (NumberText(v)[0] == '-' || IsDigit(NumberText(v)[0]))
    ensures var e, f := ExponentText(v.exponent), FractionText(v.fraction);
            (e != "" ==> e[0] in {'e', 'E'}) && (f + e != "" ==> !IsDigit((f + e)[0]))
  {
  }

  // ---------- Values ----------

  /** What can be skipped at `level`. */
  predicate Skippable(v: Value, level: nat) {
    Plain(v) && level + Depth(v) <= MAX_DEPTH
  }

  function Within(skippable: bool, end: nat): Result {
    if skippable then Ok(end) else Err
  }

  /** Where skipping a value ends: a number is never refused. */
  function End(v: Value, level: nat, pos: nat): Result {
    if v.Number? then (MissedAtMost(v); Ok(pos + |NumberText(v)| - Missed(v.exponent)))
    else Within(Skippable(v, level), pos + |TextOf(v)|)
  }

  lemma MissedAtMost(v: Value)
    requires v.Number?
    ensures Missed(v.exponent) <= |NumberText(v)|
  {
  }

  /** What `skipElement` does on the first character. */
  lemma ElementCases(s: string, pos: nat, level: nat)
    requires pos < |s|
    ensures s[pos] == 'n' || s[pos] == 't' ==> SkipElement(s, pos, level) == Ok(pos + 4)
    ensures s[pos] == 'f' ==> SkipElement(s, pos, level) == Ok(pos + 5)
    ensures s[pos] == '-' || IsDigit(s[pos]) ==> SkipElement(s, pos, level) == Ok(SkipNumber(s, pos))
    ensures s[pos] == '[' ==> SkipElement(s, pos, level) == SkipContainer(s, pos, level, false)
    ensures s[pos] == '{' ==> SkipElement(s, pos, level) == SkipContainer(s, pos, level, true)
  {
    hide SkipNumber, SkipString, SkipPair, SkipContainer;
  }

  lemma StringCases(s: string, pos: nat, level: nat)
    requires pos < |s| && s[pos] == '"'
    ensures SkipElement(s, pos, level) == var after := SkipString(s, pos);
            if after.Ok? && after.pos < |s| && s[after.pos] == ':' then SkipPair(s, pos, level) else after
  {
    hide SkipNumber, SkipString, SkipPair, SkipContainer;
  }

  lemma ScalarSkips(s: string, pos: nat, level: nat, v: Value)
    requires IsValue(v) && At(s, pos, TextOf(v)) && Stops(s, pos + |TextOf(v)|) && !v.Array? && !v.Object?
    ensures pos < |s|
    ensures SkipElement(s, pos, level) == if v.Number? then End(v, level, pos) else Ok(pos + |TextOf(v)|)
    ensures !Plain(v) ==> End(v, level, pos).pos < |s| && s[End(v, level, pos).pos] == '+'
  {
    hide SkipElement, SkipNumber, SkipString, NumberText, IsBody;
    if v.Number? {
      NumberSkips(s, pos, v);
      ElementCases(s, pos, level);
    } else {
      AtChar(s, pos, TextOf(v), 0);
      if v.Text? {
        StringSkips(s, pos, v.body);
        StringCases(s, pos, level);
      } else {
        ElementCases(s, pos, level);
      }
    }
  }

  lemma EmptySkips(s: string, pos: nat, level: nat, v: Value)
    requires (v.Array? && v.items.NoItems?) || (v.Object? && v.members.NoMembers?)
    requires At(s, pos, TextOf(v))
    ensures pos < |s| && SkipElement(s, pos, level) == Ok(pos + |TextOf(v)|)
  {
    hide SkipElement, SkipItems;
    assert TextOf(v) == if v.Array? then "[]" else "{}";
    AtChar(s, pos, TextOf(v), 0);
    AtChar(s, pos, TextOf(v), 1);
    ElementCases(s, pos, level);
  }

  /** Skipping a value stops exactly at its end, if and only if it is not nested too deeply and no number
      in it has a plus sign in its exponent; a number of that kind is cut at the sign. */
  lemma {:induction false} ValueSkips(s: string, pos: nat, level: nat, v: Value)
    requires IsValue(v) && At(s, pos, TextOf(v)) && Stops(s, pos + |TextOf(v)|) && level <= MAX_DEPTH
    ensures pos < |s| && SkipElement(s, pos, level) == End(v, level, pos)
    ensures SkipElement(s, pos, level) == Ok(pos + |TextOf(v)|) <==> Skippable(v, level)
    ensures v.Number? && !Plain(v) ==> End(v, level, pos).pos < |s| && s[End(v, level, pos).pos] == '+'
    decreases v, 0
  {
    hide SkipElement, SkipItems, TextOf, At, Stops, ItemsText, MembersText, IsValue, Depth, PlainItems, PlainMembers, NumberText;
    Shallow(v);
    if v.Array? && v.items.Item? {
      ArrayText(s, pos, v);
      ElementCases(s, pos, level);
      ItemsSkip(s, pos + 1, level, v.items);
    } else if v.Object? && v.members.Member? {
      ObjectText(s, pos, v);
      ElementCases(s, pos, level);
      MembersSkip(s, pos + 1, level, v.members);
    } else if v.Array? || v.Object? {
      EmptySkips(s, pos, level, v);
    } else {
      ScalarSkips(s, pos, level, v);
    }
  }

  lemma Shallow(v: Value)
    ensures !(v.Array? && v.items.Item?) && !(v.Object? && v.members.Member?) ==> Depth(v) == 0 && (Plain(v) || v.Number?)
    ensures v.Number? ==> TextOf(v) == NumberText(v) && (Missed(v.exponent) == 0 <==> Plain(v))
  {
  }

  lemma ArrayText(s: string, pos: nat, v: Value)
    requires v.Array? && v.items.Item? && IsValue(v) && At(s, pos, TextOf(v))
    ensures At(s, pos + 1, ItemsText(v.items) + "]") && pos + 1 < |s| && s[pos] == '[' && s[pos + 1] !in {']', '}'}
    ensures |TextOf(v)| == |ItemsText(v.items)| + 2 && AreItems(v.items) && Depth(v) == 1 + ItemsDepth(v.items)
  {
    hide At, NumberText, IsBody, MembersText, PairText, Quoted;
    FirstChar(v.items.head);
    assert TextOf(v) == "[" + (ItemsText(v.items) + "]");
    AtSplit(s, pos, "[", ItemsText(v.items) + "]");
    AtChar(s, pos, "[", 0);
    AtChar(s, pos + 1, ItemsText(v.items) + "]", 0);
  }

  lemma ObjectText(s: string, pos: nat, v: Value)
    requires v.Object? && v.members.Member? && IsValue(v) && At(s, pos, TextOf(v))
    ensures At(s, pos + 1, MembersText(v.members) + "}") && pos + 1 < |s| && s[pos] == '{' && s[pos + 1] == '"'
    ensures |TextOf(v)| == |MembersText(v.members)| + 2 && AreMembers(v.members) && Depth(v) == 2 + MembersDepth(v.members)
  {
    hide At, NumberText, IsBody, ItemsText;
    assert TextOf(v) == "{" + (MembersText(v.members) + "}");
    AtSplit(s, pos, "{", MembersText(v.members) + "}");
    AtChar(s, pos, "{", 0);
    AtChar(s, pos + 1, MembersText(v.members) + "}", 0);
  }

  /** No value starts like the end of a container. */
  lemma FirstChar(v: Value)
    ensures IsValue(v) ==> TextOf(v) != "" && TextOf(v)[0] != ']' && TextOf(v)[0] != '}'
    ensures TextOf(v) != "" || v.Number?
  {
    if v.Number? && IsValue(v) { NumberStarts(v); }
  }

  /** One element of a container, and the comma or bracket after it. */
  lemma NextPiece(s: string, pos: nat, t: string, rest: string)
    requires At(s, pos, t + rest) && rest != "" && rest[0] in {',', ']', '}'}
    ensures At(s, pos, t) && Stops(s, pos + |t|) && pos + |t| < |s| && s[pos + |t|] == rest[0]
    ensures At(s, pos + |t| + 1, rest[1..])
  {
    AtSplit(s, pos, t, rest);
    AtChar(s, pos + |t|, rest, 0);
    assert rest == rest[..1] + rest[1..];
    AtSplit(s, pos + |t|, rest[..1], rest[1..]);
  }

  /** One round of the loop over the elements. */
  lemma ItemsRound(s: string, pos: nat, level: nat, isObject: bool, item: Result)
    requires CanInit(s, pos, level + 1)
    requires item == if isObject then SkipPair(s, pos, level + 1) else SkipElement(s, pos, level + 1)
    requires item.Ok? ==> item.pos < |s|
    ensures item.Err? ==> SkipItems(s, pos, level, isObject) == Err
    ensures item.Ok? && s[item.pos] == ',' ==> SkipItems(s, pos, level, isObject) == SkipItems(s, item.pos + 1, level, isObject)
    ensures item.Ok? && s[item.pos] == Closing(isObject) ==> SkipItems(s, pos, level, isObject) == Ok(item.pos + 1)
    ensures item.Ok? && s[item.pos] == '+' ==> SkipItems(s, pos, level, isObject) == Err
  {
    hide SkipElement, SkipPair;
  }

  lemma {:induction false} ItemsSkip(s: string, pos: nat, level: nat, vs: Items)
    requires vs.Item? && AreItems(vs) && At(s, pos, ItemsText(vs) + "]") && level <= MAX_DEPTH
    ensures SkipItems(s, pos, level, false)
         == Within(PlainItems(vs) && level + 1 + ItemsDepth(vs) <= MAX_DEPTH, pos + |ItemsText(vs)| + 1)
    decreases vs, 0
  {
    hide SkipElement, SkipItems, At, Stops, TextOf, IsValue, ItemsText, Depth, ItemsDepth, Plain, End;
    ItemsRest(s, pos, vs);
    DeepestItem(vs);
    if level + 1 > MAX_DEPTH {
      TooDeep(s, pos, level, false);
    } else {
      ValueSkips(s, pos, level + 1, vs.head);
      EndCases(vs.head, level + 1, pos);
      ItemsRound(s, pos, level, false, SkipElement(s, pos, level + 1));
      if Skippable(vs.head, level + 1) && vs.tail.Item? {
        ItemsSkip(s, pos + |TextOf(vs.head)| + 1, level, vs.tail);
      }
    }
  }

  lemma EndCases(v: Value, level: nat, pos: nat)
    requires level <= MAX_DEPTH
    ensures Skippable(v, level) ==> End(v, level, pos) == Ok(pos + |TextOf(v)|)
    ensures !Skippable(v, level) ==> if v.Number? then !Plain(v) else End(v, level, pos).Err?
    ensures v.Number? ==> End(v, level, pos).Ok?
  {
  }

  lemma DeepestItem(vs: Items)
    requires vs.Item?
    ensures ItemsDepth(vs) >= Depth(vs.head) && ItemsDepth(vs) >= ItemsDepth(vs.tail)
    ensures ItemsDepth(vs) == Depth(vs.head) || (vs.tail.Item? && ItemsDepth(vs) == ItemsDepth(vs.tail))
  {
  }

  lemma DeepestMember(ms: Members)
    requires ms.Member?
    ensures MembersDepth(ms) >= Depth(ms.value) && MembersDepth(ms) >= MembersDepth(ms.tail)
    ensures MembersDepth(ms) == Depth(ms.value) || (ms.tail.Member? && MembersDepth(ms) == MembersDepth(ms.tail))
  {
  }

  lemma TooDeep(s: string, pos: nat, level: nat, isObject: bool)
    requires level + 1 > MAX_DEPTH
    ensures SkipItems(s, pos, level, isObject) == Err
  {
  }

  /** What stands after the first element of an array. */
  lemma ItemsRest(s: string, pos: nat, vs: Items)
    requires vs.Item? && At(s, pos, ItemsText(vs) + "]")
    ensures var t := TextOf(vs.head);
            && At(s, pos, t) && Stops(s, pos + |t|) && pos + |t| < |s|
            && s[pos + |t|] == (if vs.tail.NoItems? then ']' else ',')
            && |ItemsText(vs)| == |t| + (if vs.tail.NoItems? then 0 else 1 + |ItemsText(vs.tail)|)
            && (vs.tail.Item? ==> At(s, pos + |t| + 1, ItemsText(vs.tail) + "]") && pos + |t| + 1 < |s|)
  {
    hide At, Stops, TextOf;
    var t := TextOf(vs.head);
    var rest := if vs.tail.NoItems? then "]" else "," + (ItemsText(vs.tail) + "]");
    assert ItemsText(vs) + "]" == t + rest;
    NextPiece(s, pos, t, rest);
    if vs.tail.Item? {
      assert rest[1..] == ItemsText(vs.tail) + "]";
      MoreRoom(s, pos + |t| + 1, ItemsText(vs.tail) + "]");
    }
  }

  /** And after the first member of an object. */
  lemma MembersRest(s: string, pos: nat, ms: Members)
    requires ms.Member? && At(s, pos, MembersText(ms) + "}")
    ensures var t := PairText(ms.name, ms.value);
            && At(s, pos, t) && Stops(s, pos + |t|) && pos + |t| < |s|
            && s[pos + |t|] == (if ms.tail.NoMembers? then '}' else ',')
            && |MembersText(ms)| == |t| + (if ms.tail.NoMembers? then 0 else 1 + |MembersText(ms.tail)|)
            && (ms.tail.Member? ==> At(s, pos + |t| + 1, MembersText(ms.tail) + "}") && pos + |t| + 1 < |s|)
  {
    hide At, Stops, PairText;
    var t := PairText(ms.name, ms.value);
    var rest := if ms.tail.NoMembers? then "}" else "," + (MembersText(ms.tail) + "}");
    assert MembersText(ms) + "}" == t + rest;
    NextPiece(s, pos, t, rest);
    if ms.tail.Member? {
      assert rest[1..] == MembersText(ms.tail) + "}";
      MoreRoom(s, pos + |t| + 1, MembersText(ms.tail) + "}");
    }
  }

  /** A name and its value. */
  lemma {:induction false} PairSkips(s: string, pos: nat, level: nat, name: string, v: Value)
    requires IsBody(name) && IsValue(v) && At(s, pos, PairText(name, v)) && Stops(s, pos + |PairText(name, v)|)
    ensures SkipPair(s, pos, level) == if level < MAX_DEPTH then End(v, level + 1, pos + |Quoted(name)| + 1) else Err
    ensures SkipPair(s, pos, level) == Ok(pos + |PairText(name, v)|) <==> Skippable(v, level + 1)
    ensures pos < |s| && SkipElement(s, pos, level) == SkipPair(s, pos, level)
    ensures level < MAX_DEPTH && v.Number? && !Plain(v) ==>
      var e := End(v, level + 1, pos + |Quoted(name)| + 1); e.pos < |s| && s[e.pos] == '+'
    decreases v, 1
  {
    hide SkipElement, SkipString, At, Stops, TextOf, IsBody, IsValue, End, Plain;
    var q := Quoted(name);
    assert PairText(name, v) == q + (":" + TextOf(v));
    AtSplit(s, pos, q, ":" + TextOf(v));
    AtSplit(s, pos + |q|, ":", TextOf(v));
    AtChar(s, pos + |q|, ":", 0);
    AtChar(s, pos, q, 0);
    StringSkips(s, pos, name);
    StringCases(s, pos, level);
    if level + 1 <= MAX_DEPTH { ValueSkips(s, pos + |q| + 1, level + 1, v); }
  }

  lemma {:induction false} MembersSkip(s: string, pos: nat, level: nat, ms: Members)
    requires ms.Member? && AreMembers(ms) && At(s, pos, MembersText(ms) + "}") && level <= MAX_DEPTH
    ensures SkipItems(s, pos, level, true)
         == Within(PlainMembers(ms) && level + 2 + MembersDepth(ms) <= MAX_DEPTH, pos + |MembersText(ms)| + 1)
    decreases ms, 0
  {
    hide SkipElement, SkipPair, SkipItems, At, Stops, PairText, IsBody, IsValue, MembersText, Plain, End, Depth,
         MembersDepth;
    var t := PairText(ms.name, ms.value);
    MembersRest(s, pos, ms);
    if level + 1 <= MAX_DEPTH {
      DeepestMember(ms);
      PairSkips(s, pos, level + 1, ms.name, ms.value);
      if level + 2 <= MAX_DEPTH { EndCases(ms.value, level + 2, pos + |Quoted(ms.name)| + 1); }
      ItemsRound(s, pos, level, true, SkipPair(s, pos, level + 1));
      if Skippable(ms.value, level + 2) && ms.tail.Member? { MembersSkip(s, pos + |t| + 1, level, ms.tail); }
    } else {
      TooDeep(s, pos, level, true);
    }
  }

  // ---------- Iteration ----------

  /** Where the elements of a container start. */
  function ItemStarts(vs: Items, pos: nat): seq<nat> {
    if vs.NoItems? then [] else [pos] + ItemStarts(vs.tail, pos + |TextOf(vs.head)| + 1)
  }

  function MemberStarts(ms: Members, pos: nat): seq<nat> {
    if ms.NoMembers? then [] else [pos] + MemberStarts(ms.tail, pos + |PairText(ms.name, ms.value)| + 1)
  }

  function Count(v: Value): nat
    requires v.Array? || v.Object?
  {
    if v.Array? then ItemCount(v.items) else MemberCount(v.members)
  }

  function ItemCount(vs: Items): nat { if vs.NoItems? then 0 else 1 + ItemCount(vs.tail) }

  function MemberCount(ms: Members): nat { if ms.NoMembers? then 0 else 1 + MemberCount(ms.tail) }

  function Starts(v: Value, pos: nat): seq<nat>
    requires v.Array? || v.Object?
  {
    if v.Array? then ItemStarts(v.items, pos + 1) else MemberStarts(v.members, pos + 1)
  }

  lemma {:induction false} ItemStartsCount(vs: Items, pos: nat)
    ensures |ItemStarts(vs, pos)| == ItemCount(vs)
    decreases vs
  {
    if vs.Item? { ItemStartsCount(vs.tail, pos + |TextOf(vs.head)| + 1); }
  }

  lemma {:induction false} MemberStartsCount(ms: Members, pos: nat)
    ensures |MemberStarts(ms, pos)| == MemberCount(ms)
    decreases ms
  {
    if ms.Member? { MemberStartsCount(ms.tail, pos + |PairText(ms.name, ms.value)| + 1); }
  }

  /** What an iteration gets through: every element but the last has to be skipped exactly, and the last
      one has to raise no exception. */
  predicate IterableItems(vs: Items, level: nat) {
    vs.Item? ==>
      if vs.tail.NoItems? then vs.head.Number? || Skippable(vs.head, level)
      else Skippable(vs.head, level) && IterableItems(vs.tail, level)
  }

  predicate IterableMembers(ms: Members, level: nat) {
    ms.Member? ==>
      if ms.tail.NoMembers? then level <= MAX_DEPTH && (ms.value.Number? || Skippable(ms.value, level))
      else Skippable(ms.value, level) && IterableMembers(ms.tail, level)
  }

  predicate Iterable(v: Value, level: nat) {
    && level + 1 <= MAX_DEPTH
    && (v.Array? ==> IterableItems(v.items, level + 1)) && (v.Object? ==> IterableMembers(v.members, level + 2))
  }

  /** All of `starts`, or an exception or fewer of them. */
  ghost predicate VisitsAll(r: Visit, starts: seq<nat>, all: bool) {
    if all then r == Visited(starts) else r.Failed? || |r.at| < |starts|
  }

  /** One step from an element of which `rest` elements follow. */
  lemma VisitStep(s: string, pos: nat, level: nat, end: nat, rest: seq<nat>, all: bool)
    requires pos < end < |s| && level <= MAX_DEPTH
    requires rest == [] || SkipElement(s, pos, level) != Ok(end) ||
             (s[end] == ',' && end + 1 < |s| && VisitsAll(Visits(s, end + 1, level), rest, all))
    requires SkipElement(s, pos, level) == Ok(end) && rest == [] ==> s[end] != ','
    requires var r := SkipElement(s, pos, level); r.Ok? && r.pos != end ==> r.pos < |s| && s[r.pos] == '+'
    ensures var r := SkipElement(s, pos, level);
            VisitsAll(Visits(s, pos, level), [pos] + rest, if rest == [] then r.Ok? else r == Ok(end) && all)
  {
    hide SkipElement;
  }

  /** Stepping from element to element of an array visits each once. */
  lemma {:induction false} ItemsVisited(s: string, pos: nat, level: nat, vs: Items)
    requires vs.Item? && AreItems(vs) && At(s, pos, ItemsText(vs) + "]") && level + 1 <= MAX_DEPTH
    ensures pos < |s| && VisitsAll(Visits(s, pos, level + 1), ItemStarts(vs, pos), IterableItems(vs, level + 1))
    decreases vs
  {
    hide SkipElement, At, Stops, TextOf, IsValue, ItemsText, Visits, VisitsAll, End, Plain, Depth;
    var t := TextOf(vs.head);
    ItemsRest(s, pos, vs);
    ValueSkips(s, pos, level + 1, vs.head);
    EndCases(vs.head, level + 1, pos);
    FirstChar(vs.head);
    if vs.tail.Item? { ItemsVisited(s, pos + |t| + 1, level, vs.tail); }
    VisitStep(s, pos, level + 1, pos + |t|, ItemStarts(vs.tail, pos + |t| + 1), IterableItems(vs.tail, level + 1));
  }

  lemma MoreRoom(s: string, pos: nat, t: string)
    requires At(s, pos, t) && t != ""
    ensures pos < |s|
  {
  }

  lemma {:induction false} MembersVisited(s: string, pos: nat, level: nat, ms: Members)
    requires ms.Member? && AreMembers(ms) && At(s, pos, MembersText(ms) + "}") && level + 1 <= MAX_DEPTH
    ensures pos < |s| && VisitsAll(Visits(s, pos, level + 1), MemberStarts(ms, pos), IterableMembers(ms, level + 2))
    decreases ms
  {
    hide SkipElement, SkipPair, At, Stops, PairText, IsBody, IsValue, MembersText, Visits, VisitsAll, End, Plain, Depth;
    var t := PairText(ms.name, ms.value);
    MembersRest(s, pos, ms);
    PairSkips(s, pos, level + 1, ms.name, ms.value);
    if level + 2 <= MAX_DEPTH { EndCases(ms.value, level + 2, pos + |Quoted(ms.name)| + 1); }
    PairLength(ms.name, ms.value);
    if ms.tail.Member? { MembersVisited(s, pos + |t| + 1, level, ms.tail); }
    VisitStep(s, pos, level + 1, pos + |t|, MemberStarts(ms.tail, pos + |t| + 1), IterableMembers(ms.tail, level + 2));
  }

  lemma PairLength(name: string, v: Value)
    ensures |PairText(name, v)| == |Quoted(name)| + 1 + |TextOf(v)| > 0
  {
  }

  /** Iteration over a container visits exactly its elements, in order, if and only if it is iterable;
      otherwise it fails or stops early. */
  lemma IterationVisits(s: string, pos: nat, level: nat, v: Value)
    requires (v.Array? || v.Object?) && IsValue(v) && At(s, pos, TextOf(v))
    ensures pos < |s| && VisitsAll(Walk(s, pos, level), Starts(v, pos), Iterable(v, level)) && |Starts(v, pos)| == Count(v)
  {
    hide At, ItemsText, MembersText, Visits;
    if v.Array? {
      ItemStartsCount(v.items, pos + 1);
      if v.items.Item? {
        ArrayText(s, pos, v);
        if level + 1 <= MAX_DEPTH { ItemsVisited(s, pos + 1, level, v.items); }
      } else {
        AtChar(s, pos, TextOf(v), 0);
        AtChar(s, pos, TextOf(v), 1);
      }
    } else {
      MemberStartsCount(v.members, pos + 1);
      if v.members.Member? {
        ObjectText(s, pos, v);
        if level + 1 <= MAX_DEPTH { MembersVisited(s, pos + 1, level, v.members); }
      } else {
        AtChar(s, pos, TextOf(v), 0);
        AtChar(s, pos, TextOf(v), 1);
      }
    }
  }
}
