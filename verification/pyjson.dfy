/** JSON values as the Python back end builds them (dicts keep insertion
    order), Python's truthiness of such values, and `json.dumps(value,
    ensure_ascii=False)` with its default separators `", "` and `": "`. */
module PyJson {
  import opened Wrappers
  import opened Text

  datatype JValue =
    | JNull
    | JBool(b: bool)
    | JInt(i: int)
    | JStr(s: string)
    | JArr(items: seq<JValue>)
    | JObj(fields: Dict)

  /** A Python `dict[str, Any]`: entries in insertion order. */
  type Dict = seq<(string, JValue)>

  /* ---------------------------------------------------------------- */
  /* Dictionary operations                                            */
  /* ---------------------------------------------------------------- */

  predicate HasKey(d: Dict, k: string) {
    exists i | 0 <= i < |d| :: d[i].0 == k
  }

  /** No key is entered twice, as in every Python dict. */
  predicate UniqueKeys(d: Dict) {
    forall i, j :: 0 <= i < j < |d| ==> d[i].0 != d[j].0
  }

  /** Index of the first entry under `k`. */
  function KeyIndex(d: Dict, k: string): (i: nat)
    requires HasKey(d, k)
    ensures i < |d| && d[i].0 == k
    ensures forall j :: 0 <= j < i ==> d[j].0 != k
  {
    if d[0].0 == k then 0
    else
      assert HasKey(d[1..], k) by {
        var i :| 0 <= i < |d| && d[i].0 == k;
        assert d[1..][i - 1].0 == k;
      }
      1 + KeyIndex(d[1..], k)
  }

  /** `d.get(k)`: the value entered under `k`, if any. */
  function Get(d: Dict, k: string): (r: Option<JValue>)
    ensures r.Some? <==> HasKey(d, k)
    ensures r.Some? ==> exists i | 0 <= i < |d| :: d[i] == (k, r.value)
  {
    if HasKey(d, k) then Some(d[KeyIndex(d, k)].1) else None
  }

  /** `d[k] = v`: an existing entry keeps its position, a new one goes last. */
  function Put(d: Dict, k: string, v: JValue): (r: Dict)
    ensures Get(r, k) == Some(v)
    ensures forall k' :: k' != k ==> Get(r, k') == Get(d, k')
    ensures HasKey(d, k) ==> |r| == |d|
    ensures !HasKey(d, k) ==> r == d + [(k, v)]
  {
    if HasKey(d, k) then
      var i := KeyIndex(d, k);
      var r := d[i := (k, v)];
      assert HasKey(r, k) by { assert r[i].0 == k; }
      assert KeyIndex(r, k) == i by { KeyIndexUnique(r, k, i); }
      forall k' | k' != k ensures Get(r, k') == Get(d, k') {
        SameKeysElsewhere(d, r, i, k');
      }
      r
    else
      var r := d + [(k, v)];
      assert HasKey(r, k) by { assert r[|d|].0 == k; }
      assert KeyIndex(r, k) == |d| by { KeyIndexUnique(r, k, |d|); }
      forall k' | k' != k ensures Get(r, k') == Get(d, k') {
        SameKeysElsewhere(d, r, |d|, k');
      }
      r
  }

  lemma KeyIndexUnique(d: Dict, k: string, i: nat)
    requires i < |d| && d[i].0 == k
    requires forall j :: 0 <= j < i ==> d[j].0 != k
    ensures HasKey(d, k) && KeyIndex(d, k) == i
  {
  }

  /** The value under `k` is the one of its first entry. */
  lemma GetAt(d: Dict, k: string, i: nat)
    requires i < |d| && d[i].0 == k
    requires forall j :: 0 <= j < i ==> d[j].0 != k
    ensures Get(d, k) == Some(d[i].1)
  {
    KeyIndexUnique(d, k, i);
  }

  /** Two dicts that agree on every entry but the one at `i` (whose key is
      not `k'`) agree on `k'`. */
  lemma SameKeysElsewhere(d: Dict, r: Dict, i: nat, k': string)
    requires |d| <= |r| <= |d| + 1 && i < |r|
    requires |r| == |d| + 1 ==> i == |d|
    requires forall j :: 0 <= j < |d| && j != i ==> r[j] == d[j]
    requires r[i].0 != k'
    requires i < |d| ==> d[i].0 != k'
    ensures Get(r, k') == Get(d, k')
  {
    if HasKey(d, k') {
      var j := KeyIndex(d, k');
      assert r[j] == d[j];
      KeyIndexUnique(r, k', j);
    }
  }

  /** `d.setdefault(k, v)`: enters `v` only when `k` is absent. */
  function SetDefault(d: Dict, k: string, v: JValue): (r: Dict)
    ensures HasKey(d, k) ==> r == d
    ensures !HasKey(d, k) ==> r == d + [(k, v)] && Get(r, k) == Some(v)
    ensures forall k' :: k' != k ==> Get(r, k') == Get(d, k')
  {
    if HasKey(d, k) then d else Put(d, k, v)
  }

  /** Python truthiness: `None`, `False`, `0`, `""`, `[]` and `{}` are false. */
  predicate Truthy(v: JValue) {
    match v
    case JNull => false
    case JBool(b) => b
    case JInt(i) => i != 0
    case JStr(s) => s != ""
    case JArr(items) => items != []
    case JObj(fields) => fields != []
  }

  /** The key a value is filed under in a Python dict or set: `True` and
      `False` hash and compare like 1 and 0, and a list or a dict cannot be
      hashed at all (`None`: a lookup with it raises `TypeError`). */
  function HashKey(v: JValue): (r: Option<JValue>)
    ensures r.None? <==> v.JArr? || v.JObj?
    ensures r.Some? ==> !r.value.JBool? && (v.JBool? || r.value == v)
  {
    match v
    case JBool(b) => Some(JInt(if b then 1 else 0))
    case JArr(_) => None
    case JObj(_) => None
    case _ => Some(v)
  }

  /** `d.get(k)` read as a string: the text of a string value, nothing else. */
  function GetStr(d: Dict, k: string): Option<string> {
    match Get(d, k)
    case Some(JStr(s)) => Some(s)
    case _ => None
  }

  /** An optional string as Python stores it: the text, or `None`. */
  function OptStr(s: Option<string>): JValue {
    if s.Some? then JStr(s.value) else JNull
  }

  /* ---------------------------------------------------------------- */
  /* json.dumps                                                       */
  /* ---------------------------------------------------------------- */

  function HexDigit(n: nat): char
    requires n < 16
  {
    "0123456789abcdef"[n]
  }

  /** The escape `json.dumps` writes for one character of a string when
      `ensure_ascii=False`: quote, backslash and the C0 controls are escaped,
      everything else is copied. */
  function EscapeChar(c: char): string {
    if c == '"' then "\\\""
    else if c == '\\' then "\\\\"
    else if c == '\n' then "\\n"
    else if c == '\r' then "\\r"
    else if c == '\t' then "\\t"
    else if c as int == 0x08 then "\\b"
    else if c as int == 0x0C then "\\f"
    else if (c as int) < 0x20 then "\\u00" + [HexDigit((c as int) / 16), HexDigit((c as int) % 16)]
    else [c]
  }

  function Escape(s: string): string {
    if |s| == 0 then "" else EscapeChar(s[0]) + Escape(s[1..])
  }

  /** A JSON string literal. */
  function Quote(s: string): string {
    "\"" + Escape(s) + "\""
  }

  /** `json.dumps(v, ensure_ascii=False)`. */
  function Dumps(v: JValue): string {
    match v
    case JNull => "null"
    case JBool(b) => if b then "true" else "false"
    case JInt(i) => Decimal(i)
    case JStr(s) => Quote(s)
    case JArr(items) =>
      "[" + Join(", ", seq(|items|, i requires 0 <= i < |items| => Dumps(items[i]))) + "]"
    case JObj(fields) =>
      "{" + Join(", ", seq(|fields|, i requires 0 <= i < |fields| =>
                             Quote(fields[i].0) + ": " + Dumps(fields[i].1))) + "}"
  }

  /* ---------------------------------------------------------------- */
  /* Reading escapes back                                             */
  /* ---------------------------------------------------------------- */

  function HexValue(c: char): (r: Option<nat>)
    ensures r.Some? ==> r.value < 16
  {
    if '0' <= c <= '9' then Some((c as int) - ('0' as int))
    else if 'a' <= c <= 'f' then Some((c as int) - ('a' as int) + 10)
    else if 'A' <= c <= 'F' then Some((c as int) - ('A' as int) + 10)
    else None
  }

  /** The character a two-character escape `\e` stands for. */
  function SimpleEscape(e: char): Option<char> {
    if e == '"' then Some('"')
    else if e == '\\' then Some('\\')
    else if e == '/' then Some('/')
    else if e == 'n' then Some('\n')
    else if e == 'r' then Some('\r')
    else if e == 't' then Some('\t')
    else if e == 'b' then Some(8 as char)
    else if e == 'f' then Some(12 as char)
    else None
  }

  function HexNumber(a: nat, b: nat, c: nat, d: nat): (r: nat)
    requires a < 16 && b < 16 && c < 16 && d < 16
    ensures r < 0x1_0000
  {
    ((a * 16 + b) * 16 + c) * 16 + d
  }

  /** The code point written by the four hex digits `h`, when it is not a
      surrogate. */
  function HexCode(h: string): Option<char>
    requires |h| == 4
  {
    var a, b, c, d := HexValue(h[0]), HexValue(h[1]), HexValue(h[2]), HexValue(h[3]);
    if a.None? || b.None? || c.None? || d.None? then None
    else
      var code := HexNumber(a.value, b.value, c.value, d.value);
      if code < 0xD800 || 0xE000 <= code then Some(code as char) else None
  }

  /** The first character of an escaped text and how many characters of the
      text it took. */
  function FirstUnescaped(t: string): Option<(char, nat)>
    requires |t| > 0
  {
    if t[0] != '\\' then Some((t[0], 1))
    else if |t| >= 2 && SimpleEscape(t[1]).Some? then Some((SimpleEscape(t[1]).value, 2))
    else if |t| >= 6 && t[1] == 'u' && HexCode(t[2..6]).Some? then Some((HexCode(t[2..6]).value, 6))
    else None
  }

  /** Decodes the body of a JSON string literal, as a JSON parser does.
      `None` for a malformed escape. */
  function Unescape(t: string): Option<string>
    decreases |t|
  {
    if |t| == 0 then Some("")
    else
      match FirstUnescaped(t)
      case None => None
      case Some((c, n)) =>
        if n > |t| || n == 0 then None
        else
          match Unescape(t[n..])
          case Some(r) => Some([c] + r)
          case None => None
  }

  lemma UnescapeChar(c: char, rest: string)
    requires Unescape(rest).Some?
    ensures Unescape(EscapeChar(c) + rest) == Some([c] + Unescape(rest).value)
  {
    var t := EscapeChar(c) + rest;
    var n := c as int;
    if c == '"' || c == '\\' || c == '\n' || c == '\r' || c == '\t' || n == 0x08 || n == 0x0C {
      UnescapeNamed(c, rest);
    } else if n < 0x20 {
      UnescapeControl(c, rest);
    } else {
      assert FirstUnescaped(t) == Some((c, 1));
      UnescapeStep(t, c, 1);
      assert t[1..] == rest;
    }
  }

  /** Decoding proceeds one escape at a time. */
  lemma UnescapeStep(t: string, c: char, n: nat)
    requires |t| > 0 && 0 < n <= |t|
    requires FirstUnescaped(t) == Some((c, n))
    requires Unescape(t[n..]).Some?
    ensures Unescape(t) == Some([c] + Unescape(t[n..]).value)
  {
  }

  lemma UnescapeNamed(c: char, rest: string)
    requires c == '"' || c == '\\' || c == '\n' || c == '\r' || c == '\t'
             || c as int == 0x08 || c as int == 0x0C
    requires Unescape(rest).Some?
    ensures Unescape(EscapeChar(c) + rest) == Some([c] + Unescape(rest).value)
  {
    var t := EscapeChar(c) + rest;
    assert |EscapeChar(c)| == 2 && EscapeChar(c)[0] == '\\';
    assert SimpleEscape(t[1]) == Some(c);
    assert FirstUnescaped(t) == Some((c, 2));
    assert t[2..] == rest;
    UnescapeStep(t, c, 2);
  }

  lemma UnescapeControl(c: char, rest: string)
    requires (c as int) < 0x20
    requires c != '\n' && c != '\r' && c != '\t' && c as int != 0x08 && c as int != 0x0C
    requires Unescape(rest).Some?
    ensures Unescape(EscapeChar(c) + rest) == Some([c] + Unescape(rest).value)
  {
    var n := c as int;
    var e := EscapeChar(c);
    assert e == "\\u00" + [HexDigit(n / 16), HexDigit(n % 16)];
    var t := e + rest;
    assert t[2..6] == "00" + [HexDigit(n / 16), HexDigit(n % 16)];
    HexCodeOfControl(c);
    assert FirstUnescaped(t) == Some((c, 6));
    assert t[6..] == rest;
    UnescapeStep(t, c, 6);
  }

  lemma HexCodeOfControl(c: char)
    requires (c as int) < 0x20
    ensures HexCode("00" + [HexDigit((c as int) / 16), HexDigit((c as int) % 16)]) == Some(c)
  {
    var n := c as int;
    assert HexValue(HexDigit(n / 16)) == Some(n / 16);
    assert HexValue(HexDigit(n % 16)) == Some(n % 16);
  }

  /** Escaping is undone by a JSON string decoder: every string survives the
      trip through `json.dumps` and back. */
  lemma {:induction false} UnescapeEscape(s: string)
    ensures Unescape(Escape(s)) == Some(s)
  {
    if |s| > 0 {
      UnescapeEscape(s[1..]);
      UnescapeChar(s[0], Escape(s[1..]));
      assert [s[0]] + s[1..] == s;
    }
  }

  /* ---------------------------------------------------------------- */
  /* Shape of the serialised text                                     */
  /* ---------------------------------------------------------------- */

  /** Text without quotes, backslashes or control characters is written
      as it is. */
  lemma EscapePlain(s: string)
    requires forall i :: 0 <= i < |s| ==> s[i] != '"' && s[i] != '\\' && (s[i] as int) >= 0x20
    ensures Escape(s) == s
  {
    if |s| > 0 {
      EscapePlain(s[1..]);
    }
  }

  lemma EscapeLacksNewline(s: string)
    ensures Lacks(Escape(s), '\n')
  {
    if |s| > 0 {
      EscapeLacksNewline(s[1..]);
    }
  }

  /** `json.dumps` never writes a raw line feed: line feeds inside strings
      come out as the two characters `\n`. */
  lemma {:induction false} DumpsLacksNewline(v: JValue)
    ensures Lacks(Dumps(v), '\n')
  {
    match v
    case JNull =>
    case JBool(b) =>
    case JInt(i) =>
      NatDigitsAreDigits(if i < 0 then -i else i);
    case JStr(s) =>
      EscapeLacksNewline(s);
    case JArr(items) =>
      var parts := seq(|items|, i requires 0 <= i < |items| => Dumps(items[i]));
      forall i | 0 <= i < |parts| ensures Lacks(parts[i], '\n') {
        DumpsLacksNewline(items[i]);
      }
      JoinLacks(", ", parts, '\n');
    case JObj(fields) =>
      var parts := seq(|fields|, i requires 0 <= i < |fields| =>
                         Quote(fields[i].0) + ": " + Dumps(fields[i].1));
      forall i | 0 <= i < |parts| ensures Lacks(parts[i], '\n') {
        DumpsLacksNewline(fields[i].1);
        EscapeLacksNewline(fields[i].0);
      }
      JoinLacks(", ", parts, '\n');
  }

  /** The serialised text is never empty and starts and ends with a
      non-blank character (a bracket, a quote, a digit or a letter). */
  lemma DumpsTight(v: JValue)
    ensures Dumps(v) != ""
    ensures Tight(Dumps(v), JsWhitespace)
  {
    var t := Dumps(v);
    match v
    case JNull =>
    case JBool(b) =>
    case JInt(i) => DecimalTight(i);
    case JStr(s) =>
      assert t[0] == '"' && t[|t| - 1] == '"';
    case JArr(items) =>
      assert t[0] == '[' && t[|t| - 1] == ']';
    case JObj(fields) =>
      assert t[0] == '{' && t[|t| - 1] == '}';
  }

  /** A decimal numeral starts with a sign or a digit and ends with a digit. */
  lemma DecimalTight(i: int)
    ensures Tight(Decimal(i), JsWhitespace)
  {
    var t := Decimal(i);
    NatDigitsAreDigits(if i < 0 then -i else i);
    if i < 0 {
      assert t[|t| - 1] == NatDigits(-i)[|NatDigits(-i)| - 1];
    }
  }
}
