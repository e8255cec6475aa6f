/**
 * `JSON.stringify` on the values the token issuer builds (ECMA-262
 * `SerializeJSONProperty`, `SerializeJSONObject`, `QuoteJSONString`), and a
 * parser for the text it produces, standing for the `JSON.parse` a relying
 * party applies. Output has no whitespace; numbers are integers.
 */
module Json {
  import opened Wrappers
  import opened JsObject
  import Positional

  datatype Json = JStr(s: string) | JNum(n: int) | JObj(members: seq<Member>)
  datatype Member = Member(key: string, value: Json)

  // ---- From JavaScript values to JSON values ------------------------------

  /**
   * What `JSON.stringify` writes for a value: nothing for `undefined`, and for an
   * object its defined properties in enumeration order.
   */
  function ToJson(v: Value): (r: Option<Json>)
    ensures r.None? <==> v.Undefined?
    decreases v, 1
  {
    match v
    case Undefined => None
    case Str(s) => Some(JStr(s))
    case Num(n) => Some(JNum(n))
    case Obj(ps) =>
      MultisetKeySet(ps, Enumerate(ps));
      Some(JObj(Members(v, Enumerate(ps))))
  }

  /** The members written for the properties `qs` of object `parent`. */
  function Members(parent: Value, qs: seq<Property>): seq<Member>
    requires parent.Obj? && forall q :: q in qs ==> q in parent.props
    decreases parent, 0, |qs|
  {
    if qs == [] then []
    else
      assert qs[0] in parent.props;
      var rest := Members(parent, qs[1..]);
      match ToJson(qs[0].value)
      case None => rest
      case Some(j) => [Member(qs[0].key, j)] + rest
  }

  /** A member of a JSON object: the first with key `k`. */
  function Field(ms: seq<Member>, k: string): Option<Json>
  {
    if ms == [] then None
    else if ms[0].key == k then Some(ms[0].value)
    else Field(ms[1..], k)
  }

  /** The property `k` of a JSON value, `None` when it is not an object or has no such member. */
  function Prop(j: Json, k: string): Option<Json>
  {
    if j.JObj? then Field(j.members, k) else None
  }

  lemma {:induction false} MembersField(parent: Value, qs: seq<Property>, k: string)
    requires parent.Obj? && forall q :: q in qs ==> q in parent.props
    requires Distinct(qs)
    ensures Field(Members(parent, qs), k) == ToJson(Get(qs, k))
    decreases |qs|
  {
    if qs != [] {
      DistinctTail(qs);
      MembersField(parent, qs[1..], k);
    }
  }

  /**
   * Reading property `k` of the JSON written for an object gives the JSON of that
   * property's value, and nothing when the property is absent or `undefined`.
   */
  lemma PropOfObject(ps: seq<Property>, k: string)
    requires Distinct(ps)
    ensures ToJson(Obj(ps)).Some? && Prop(ToJson(Obj(ps)).value, k) == ToJson(Get(ps, k))
  {
    EnumerateGet(ps, k);
    MultisetKeySet(ps, Enumerate(ps));
    MembersField(Obj(ps), Enumerate(ps), k);
  }

  // ---- Printing ----------------------------------------------------------

  function HexDigit(d: int): (c: char)
    requires 0 <= d < 16
  {
    if d < 10 then ('0' as int + d) as char else ('a' as int + d - 10) as char
  }

  /** `QuoteJSONString`'s escape for one character. */
  function EscapeChar(c: char): (r: string)
    ensures |r| > 0 && r[0] != '"'
  {
    if c == '"' then "\\\""
    else if c == '\\' then "\\\\"
    else if c == '\U{8}' then "\\b"
    else if c == '\t' then "\\t"
    else if c == '\n' then "\\n"
    else if c == '\U{C}' then "\\f"
    else if c == '\r' then "\\r"
    else if (c as int) < 0x20 then "\\u00" + [HexDigit(c as int / 16), HexDigit(c as int % 16)]
    else [c]
  }

  function Escape(s: string): string
  {
    if s == [] then [] else EscapeChar(s[0]) + Escape(s[1..])
  }

  /** A string literal: the escaped characters between double quotes. */
  function Quote(s: string): string
  {
    "\"" + Escape(s) + "\""
  }

  /** Decimal digits of a natural number, "0" for zero. */
  function NatText(n: nat): (r: string)
    ensures |r| > 0 && forall i :: 0 <= i < |r| ==> '0' <= r[i] <= '9'
  {
    if n == 0 then "0" else DigitText(Positional.Digits(n, 10))
  }

  function DigitText(ds: seq<int>): (r: string)
    requires Positional.IsDigits(ds, 10)
    ensures |r| == |ds| && forall i :: 0 <= i < |r| ==> r[i] == ('0' as int + ds[i]) as char
  {
    if ds == [] then [] else [('0' as int + ds[0]) as char] + DigitText(ds[1..])
  }

  /** `Number::toString` on an integer: optional minus sign, then decimal digits. */
  function NumberText(n: int): (r: string)
    ensures |r| > 0 && (r[0] == '-' || '0' <= r[0] <= '9')
  {
    if n < 0 then "-" + NatText(-n) else NatText(n)
  }

  function Print(j: Json): (r: string)
    ensures |r| > 0
    decreases j, 1
  {
    match j
    case JStr(s) => Quote(s)
    case JNum(n) => NumberText(n)
    case JObj(ms) => "{" + PrintMembers(j, ms) + "}"
  }

  /** Members as `"key":value`, separated by commas. */
  function PrintMembers(parent: Json, ms: seq<Member>): (r: string)
    requires parent.JObj? && forall m :: m in ms ==> m in parent.members
    ensures ms != [] ==> |r| > 0 && r[0] == '"'
    decreases parent, 0, |ms|
  {
    if ms == [] then ""
    else
      assert ms[0] in parent.members;
      var head := Quote(ms[0].key) + ":" + Print(ms[0].value);
      if |ms| == 1 then head else head + "," + PrintMembers(parent, ms[1..])
  }

  /** `JSON.stringify(o)` for a plain object `o`. */
  function Stringify(o: seq<Property>): (text: string)
    ensures Parse(text) == ToJson(Obj(o))
  {
    ParseOfPrint(ToJson(Obj(o)).value);
    Print(ToJson(Obj(o)).value)
  }

  // ---- Parsing -----------------------------------------------------------

  predicate IsDigit(c: char) {
    '0' <= c <= '9'
  }

  function HexValue(c: char): (r: Option<int>)
    ensures r.Some? ==> 0 <= r.value < 16
  {
    if '0' <= c <= '9' then Some(c as int - '0' as int)
    else if 'a' <= c <= 'f' then Some(c as int - 'a' as int + 10)
    else if 'A' <= c <= 'F' then Some(c as int - 'A' as int + 10)
    else None
  }

  /** The character an escape sequence (after its backslash) stands for, and its length. */
  function Unescape(t: string): Option<(char, nat)>
  {
    if t == [] then None
    else if t[0] == '"' then Some(('"', 1))
    else if t[0] == '\\' then Some(('\\', 1))
    else if t[0] == '/' then Some(('/', 1))
    else if t[0] == 'b' then Some(('\U{8}', 1))
    else if t[0] == 't' then Some(('\t', 1))
    else if t[0] == 'n' then Some(('\n', 1))
    else if t[0] == 'f' then Some(('\U{C}', 1))
    else if t[0] == 'r' then Some(('\r', 1))
    else if t[0] == 'u' && |t| >= 5 then
      match (HexValue(t[1]), HexValue(t[2]), HexValue(t[3]), HexValue(t[4]))
      case (Some(a), Some(b), Some(c), Some(d)) =>
        var n := ((a * 16 + b) * 16 + c) * 16 + d;
        assert n < 0x10000;
        if n < 0xD800 || 0xE000 <= n then Some((n as char, 5)) else None
      case _ => None
    else None
  }

  /** The body of a string literal up to its closing quote, and what follows. */
  function ParseString(s: string): (r: Option<(string, string)>)
    ensures r.Some? ==> |r.value.1| < |s|
  {
    if s == [] then None
    else if s[0] == '"' then Some(([], s[1..]))
    else if s[0] == '\\' then
      match Unescape(s[1..])
      case None => None
      case Some((c, k)) =>
        match ParseString(s[1 + k..])
        case None => None
        case Some((t, rest)) => Some(([c] + t, rest))
    else if (s[0] as int) < 0x20 then None
    else
      match ParseString(s[1..])
      case None => None
      case Some((t, rest)) => Some(([s[0]] + t, rest))
  }

  /** The length of the run of decimal digits that `s` starts with. */
  function DigitRun(s: string): (k: nat)
    ensures k <= |s| && (forall i :: 0 <= i < k ==> IsDigit(s[i])) && (k < |s| ==> !IsDigit(s[k]))
  {
    if s == [] || !IsDigit(s[0]) then 0 else 1 + DigitRun(s[1..])
  }

  function TextDigits(t: string): (ds: seq<int>)
    requires forall i :: 0 <= i < |t| ==> IsDigit(t[i])
    ensures |ds| == |t| && forall i :: 0 <= i < |t| ==> ds[i] == t[i] as int - '0' as int
    ensures Positional.IsDigits(ds, 10)
  {
    if t == [] then []
    else
      assert forall i :: 0 <= i < |t| ==> 0 <= t[i] as int - '0' as int < 10 by {
        forall i | 0 <= i < |t| ensures 0 <= t[i] as int - '0' as int < 10 {
          assert IsDigit(t[i]);
        }
      }
      [t[0] as int - '0' as int] + TextDigits(t[1..])
  }

  /** At least one decimal digit: the number they denote and what follows them. */
  function ParseDigits(t: string): (r: Option<(nat, string)>)
    ensures r.Some? ==> |r.value.1| < |t|
  {
    var k := DigitRun(t);
    if k == 0 then None else Some((Positional.Value(TextDigits(t[..k]), 10), t[k..]))
  }

  /** An optional minus sign and at least one digit. */
  function ParseNumber(s: string): (r: Option<(int, string)>)
    ensures r.Some? ==> |r.value.1| < |s|
  {
    if |s| > 0 && s[0] == '-' then
      match ParseDigits(s[1..])
      case None => None
      case Some((n, rest)) => Some((0 - n, rest))
    else
      match ParseDigits(s)
      case None => None
      case Some((n, rest)) => Some((n, rest))
  }

  function ParseValue(s: string): (r: Option<(Json, string)>)
    ensures r.Some? ==> |r.value.1| < |s|
    decreases |s|, 1
  {
    if s == [] then None
    else if s[0] == '"' then
      match ParseString(s[1..])
      case None => None
      case Some((t, rest)) => Some((JStr(t), rest))
    else if s[0] == '-' || IsDigit(s[0]) then
      match ParseNumber(s)
      case None => None
      case Some((n, rest)) => Some((JNum(n), rest))
    else if s[0] == '{' then
      if |s| >= 2 && s[1] == '}' then Some((JObj([]), s[2..]))
      else
        match ParseMembers(s[1..])
        case None => None
        case Some((ms, rest)) => Some((JObj(ms), rest))
    else None
  }

  /** One or more `"key":value` members and the closing brace. */
  function ParseMembers(s: string): (r: Option<(seq<Member>, string)>)
    ensures r.Some? ==> |r.value.1| < |s|
    decreases |s|, 0
  {
    if s == [] || s[0] != '"' then None
    else
      match ParseString(s[1..])
      case None => None
      case Some((k, r1)) =>
        if r1 == [] || r1[0] != ':' then None
        else
          match ParseValue(r1[1..])
          case None => None
          case Some((v, r2)) =>
            if r2 == [] then None
            else if r2[0] == '}' then Some(([Member(k, v)], r2[1..]))
            else if r2[0] == ',' then
              match ParseMembers(r2[1..])
              case None => None
              case Some((ms, r3)) => Some(([Member(k, v)] + ms, r3))
            else None
  }

  /** A complete JSON text: one value and nothing after it. */
  function Parse(s: string): Option<Json>
  {
    match ParseValue(s)
    case Some((j, rest)) => if rest == [] then Some(j) else None
    case None => None
  }

  // ---- Parsing what was printed ------------------------------------------

  lemma HexRoundTrip(d: int)
    requires 0 <= d < 16
    ensures HexValue(HexDigit(d)) == Some(d)
  {
  }

  /** One escaped character is read back as that character. */
  lemma ParseEscapeChar(c: char, tail: string)
    ensures ParseString(EscapeChar(c) + tail) ==
      match ParseString(tail)
      case None => None
      case Some((t, rest)) => Some(([c] + t, rest))
  {
    var e := EscapeChar(c);
    var s := e + tail;
    if |e| == 2 {
      assert Unescape(s[1..]) == Some((c, 1)) by {
        assert s[1..] == [e[1]] + tail;
      }
      assert s[2..] == tail;
      ParseEscaped(s, c, 1, tail);
    } else if |e| == 6 {
      assert Unescape(s[1..]) == Some((c, 5)) by {
        var n := c as int;
        var t := s[1..];
        assert t[0] == 'u' && t[1] == '0' && t[2] == '0';
        assert t[3] == HexDigit(n / 16) && t[4] == HexDigit(n % 16);
        UnescapeUnicode(t, n / 16, n % 16);
      }
      assert s[6..] == tail;
      ParseEscaped(s, c, 5, tail);
    } else {
      assert s[1..] == tail;
    }
  }

  /** A `\u00XY` escape denotes the character with code 16 X + Y. */
  lemma UnescapeUnicode(t: string, hi: int, lo: int)
    requires 0 <= hi < 2 && 0 <= lo < 16
    requires |t| >= 5 && t[0] == 'u' && t[1] == '0' && t[2] == '0' && t[3] == HexDigit(hi) && t[4] == HexDigit(lo)
    ensures Unescape(t) == Some(((hi * 16 + lo) as char, 5))
  {
    HexRoundTrip(hi);
    HexRoundTrip(lo);
  }

  /** One unfolding of `ParseString` at a backslash. */
  lemma ParseEscaped(s: string, c: char, k: nat, tail: string)
    requires |s| >= 1 + k && s[0] == '\\' && Unescape(s[1..]) == Some((c, k)) && s[1 + k..] == tail
    ensures ParseString(s) ==
      match ParseString(tail)
      case None => None
      case Some((t, rest)) => Some(([c] + t, rest))
  {
  }

  /** The body of a printed string literal is read back exactly. */
  lemma {:induction false} ParseEscape(s: string, rest: string)
    ensures ParseString(Escape(s) + "\"" + rest) == Some((s, rest))
  {
    if s == [] {
      assert Escape(s) + "\"" + rest == "\"" + rest;
    } else {
      var tail := Escape(s[1..]) + "\"" + rest;
      assert Escape(s) + "\"" + rest == EscapeChar(s[0]) + tail;
      ParseEscapeChar(s[0], tail);
      ParseEscape(s[1..], rest);
      assert [s[0]] + s[1..] == s;
    }
  }

  lemma {:induction false} TextOfDigits(ds: seq<int>)
    requires Positional.IsDigits(ds, 10)
    ensures TextDigits(DigitText(ds)) == ds
  {
  }

  lemma DigitRunOfText(n: nat, rest: string)
    requires rest == [] || !IsDigit(rest[0])
    ensures DigitRun(NatText(n) + rest) == |NatText(n)|
  {
    var d := NatText(n);
    var t := d + rest;
    assert forall i :: 0 <= i < |d| ==> t[i] == d[i];
    assert |d| < |t| ==> t[|d|] == rest[0];
    DigitRunExact(t, |d|);
  }

  /** Printed digits denote the number printed. */
  lemma ValueOfText(n: nat)
    ensures Positional.Value(TextDigits(NatText(n)), 10) == n
  {
    if n == 0 {
      assert TextDigits("0") == [0];
      assert Positional.Value([0], 10) == Positional.Value([], 10) * 10 + 0;
    } else {
      var ds := Positional.Digits(n, 10);
      TextOfDigits(ds);
      Positional.ValueOfDigits(n, 10);
    }
  }

  lemma {:induction false} DigitRunExact(s: string, k: nat)
    requires k <= |s| && (forall i :: 0 <= i < k ==> IsDigit(s[i])) && (k < |s| ==> !IsDigit(s[k]))
    ensures DigitRun(s) == k
  {
    if k > 0 {
      DigitRunExact(s[1..], k - 1);
    }
  }

  lemma ParseNumberText(n: int, rest: string)
    requires rest == [] || !IsDigit(rest[0])
    ensures ParseNumber(NumberText(n) + rest) == Some((n, rest))
  {
    var m: nat := if n < 0 then -n else n;
    ParseNatText(m, rest);
    if n < 0 {
      NegativeText(m, rest);
      ParseNegative("-" + (NatText(m) + rest), m, rest);
    } else {
      ParseNonNegative(NatText(m) + rest, m, rest);
    }
  }

  /** Printed digits followed by a non-digit are read back as that number. */
  lemma ParseNatText(m: nat, rest: string)
    requires rest == [] || !IsDigit(rest[0])
    ensures ParseDigits(NatText(m) + rest) == Some((m, rest))
  {
    var d := NatText(m);
    var t := d + rest;
    DigitRunOfText(m, rest);
    ValueOfText(m);
    assert t[..|d|] == d && t[|d|..] == rest;
  }

  lemma NegativeText(m: nat, rest: string)
    requires m > 0
    ensures NumberText(-(m as int)) + rest == "-" + (NatText(m) + rest)
    ensures ("-" + (NatText(m) + rest))[1..] == NatText(m) + rest
  {
  }

  lemma ParseNegative(s: string, m: nat, rest: string)
    requires |s| > 0 && s[0] == '-' && ParseDigits(s[1..]) == Some((m, rest))
    ensures ParseNumber(s) == Some((0 - m, rest))
  {
  }

  lemma ParseNonNegative(s: string, m: nat, rest: string)
    requires ParseDigits(s) == Some((m, rest)) && s[0] != '-'
    ensures ParseNumber(s) == Some((m, rest))
  {
  }

  /** A printed value is read back exactly, whatever follows it (short of a digit). */
  lemma {:induction false} ParsePrint(j: Json, rest: string)
    requires rest == [] || !IsDigit(rest[0])
    ensures ParseValue(Print(j) + rest) == Some((j, rest))
    decreases j, 1
  {
    match j
    case JStr(t) =>
      ParseQuoted(t, rest);
      ParseValueString(Quote(t) + rest, t, rest);
    case JNum(n) =>
      ParseNumberText(n, rest);
      ParseValueNumber(NumberText(n) + rest, n, rest);
    case JObj(ms) =>
      if ms == [] {
        ParseValueEmpty(j, rest);
      } else {
        ParsePrintMembers(j, ms, rest);
        ObjectText(j, rest);
        ParseValueObject("{" + (PrintMembers(j, ms) + "}" + rest), ms, rest);
      }
  }

  lemma ParseValueString(s: string, t: string, rest: string)
    requires |s| > 0 && s[0] == '"' && ParseString(s[1..]) == Some((t, rest))
    ensures ParseValue(s) == Some((JStr(t), rest))
  {
  }

  lemma ParseValueNumber(s: string, n: int, rest: string)
    requires ParseNumber(s) == Some((n, rest))
    requires |s| > 0 && (s[0] == '-' || '0' <= s[0] <= '9')
    ensures ParseValue(s) == Some((JNum(n), rest))
  {
  }

  lemma ParseValueEmpty(j: Json, rest: string)
    requires j == JObj([])
    ensures ParseValue(Print(j) + rest) == Some((j, rest))
  {
    assert PrintMembers(j, []) == "";
    var s := "{}" + rest;
    assert Print(j) + rest == s;
    assert s[2..] == rest;
  }

  lemma ObjectText(j: Json, rest: string)
    requires j.JObj? && j.members != []
    ensures Print(j) + rest == "{" + (PrintMembers(j, j.members) + "}" + rest)
    ensures ("{" + (PrintMembers(j, j.members) + "}" + rest))[1..] == PrintMembers(j, j.members) + "}" + rest
    ensures ("{" + (PrintMembers(j, j.members) + "}" + rest))[1] == '"'
  {
  }

  lemma ParseValueObject(s: string, ms: seq<Member>, rest: string)
    requires |s| > 1 && s[0] == '{' && s[1] == '"' && ParseMembers(s[1..]) == Some((ms, rest))
    ensures ParseValue(s) == Some((JObj(ms), rest))
  {
  }

  lemma {:induction false} ParsePrintMembers(parent: Json, ms: seq<Member>, rest: string)
    requires parent.JObj? && forall m :: m in ms ==> m in parent.members
    requires ms != []
    ensures ParseMembers(PrintMembers(parent, ms) + "}" + rest) == Some((ms, rest))
    decreases parent, 0, |ms|
  {
    var m := ms[0];
    assert m in parent.members;
    if |ms| == 1 {
      var tail := "}" + rest;
      LastMemberText(parent, ms, rest);
      ParsePrint(m.value, tail);
      ParseMemberHead(m.key, m.value, tail);
      assert tail[1..] == rest;
      assert ms == [m];
    } else {
      var more := PrintMembers(parent, ms[1..]);
      var tail := "," + (more + "}" + rest);
      MoreMembersText(parent, ms, rest);
      ParsePrint(m.value, tail);
      ParseMemberHead(m.key, m.value, tail);
      ParsePrintMembers(parent, ms[1..], rest);
      assert ms == [m] + ms[1..];
    }
  }

  lemma LastMemberText(parent: Json, ms: seq<Member>, rest: string)
    requires parent.JObj? && forall m :: m in ms ==> m in parent.members
    requires |ms| == 1
    ensures PrintMembers(parent, ms) + "}" + rest == Quote(ms[0].key) + ":" + Print(ms[0].value) + ("}" + rest)
  {
  }

  lemma MoreMembersText(parent: Json, ms: seq<Member>, rest: string)
    requires parent.JObj? && forall m :: m in ms ==> m in parent.members
    requires |ms| > 1
    ensures PrintMembers(parent, ms) + "}" + rest ==
      Quote(ms[0].key) + ":" + Print(ms[0].value) + ("," + (PrintMembers(parent, ms[1..]) + "}" + rest))
    ensures ("," + (PrintMembers(parent, ms[1..]) + "}" + rest))[1..] == PrintMembers(parent, ms[1..]) + "}" + rest
  {
  }

  lemma ParseMemberHead(k: string, v: Json, tail: string)
    requires ParseValue(Print(v) + tail) == Some((v, tail))
    requires |tail| > 0 && (tail[0] == '}' || tail[0] == ',')
    ensures ParseMembers(Quote(k) + ":" + Print(v) + tail) ==
      if tail[0] == '}' then Some(([Member(k, v)], tail[1..]))
      else match ParseMembers(tail[1..])
        case None => None
        case Some((ms, r3)) => Some(([Member(k, v)] + ms, r3))
  {
    var after := ":" + Print(v) + tail;
    var s := Quote(k) + after;
    assert s == Quote(k) + ":" + Print(v) + tail;
    ParseQuoted(k, after);
    ParseColonValue(v, tail);
    ParseMembersAt(k, v, tail, s, after);
  }

  /** A quoted string followed by anything: the key is read back and `after` is left. */
  lemma ParseQuoted(k: string, after: string)
    ensures |Quote(k) + after| > 0 && (Quote(k) + after)[0] == '"'
    ensures ParseString((Quote(k) + after)[1..]) == Some((k, after))
  {
    var s := Quote(k) + after;
    assert s[1..] == Escape(k) + "\"" + after;
    ParseEscape(k, after);
  }

  lemma ParseColonValue(v: Json, tail: string)
    requires ParseValue(Print(v) + tail) == Some((v, tail))
    ensures |":" + Print(v) + tail| > 0 && (":" + Print(v) + tail)[0] == ':'
    ensures ParseValue((":" + Print(v) + tail)[1..]) == Some((v, tail))
  {
    DropHead(':', Print(v), tail);
  }

  /** Kept apart from `Print`, whose unfolding makes this step expensive inline. */
  lemma DropHead(c: char, x: string, y: string)
    ensures [c] + x + y != [] && ([c] + x + y)[0] == c && ([c] + x + y)[1..] == x + y
  {
    assert ([c] + x + y)[1..] == x + y;
  }

  lemma ParseMembersAt(k: string, v: Json, tail: string, s: string, after: string)
    requires |tail| > 0 && (tail[0] == '}' || tail[0] == ',')
    requires s == Quote(k) + ":" + Print(v) + tail
    requires |s| > 0 && s[0] == '"' && ParseString(s[1..]) == Some((k, after))
    requires |after| > 0 && after[0] == ':' && ParseValue(after[1..]) == Some((v, tail))
    ensures ParseMembers(Quote(k) + ":" + Print(v) + tail) ==
      if tail[0] == '}' then Some(([Member(k, v)], tail[1..]))
      else match ParseMembers(tail[1..])
        case None => None
        case Some((ms, r3)) => Some(([Member(k, v)] + ms, r3))
  {
    ParseMembersStep(s, k, after, v, tail);
  }

  /** One unfolding of `ParseMembers`: a key, a colon, a value and what comes after. */
  lemma ParseMembersStep(s: string, k: string, after: string, v: Json, tail: string)
    requires |s| > 0 && s[0] == '"' && ParseString(s[1..]) == Some((k, after))
    requires |after| > 0 && after[0] == ':' && ParseValue(after[1..]) == Some((v, tail))
    requires |tail| > 0 && (tail[0] == '}' || tail[0] == ',')
    ensures ParseMembers(s) ==
      if tail[0] == '}' then Some(([Member(k, v)], tail[1..]))
      else match ParseMembers(tail[1..])
        case None => None
        case Some((ms, r3)) => Some(([Member(k, v)] + ms, r3))
  {
  }

  /** Parsing undoes printing: `JSON.parse(JSON.stringify(x))` gives back the JSON of `x`. */
  lemma ParseOfPrint(j: Json)
    ensures Parse(Print(j)) == Some(j)
  {
    ParsePrint(j, []);
    assert Print(j) + [] == Print(j);
  }
}
