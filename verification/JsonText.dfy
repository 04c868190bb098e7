/**
  JSON strings as `json.dumps` writes them with its defaults and as a conforming parser reads them
  (section 7 of RFC 8259). Text is a sequence of UTF-16 code units, which is what the browser
  holds; a character outside the basic plane is two units and two `\u` escapes.
*/
module JsonText {
  import opened Wrappers

  type CodeUnit = u: int | 0 <= u < 0x1_0000
  type Text = seq<CodeUnit>

  function Hex(d: int): char
    requires 0 <= d < 16
  {
    if d < 10 then '0' + d as char else 'a' + (d - 10) as char
  }

  function HexValue(c: char): Option<int> {
    if '0' <= c <= '9' then Some(c as int - '0' as int)
    else if 'a' <= c <= 'f' then Some(c as int - 'a' as int + 10)
    else if 'A' <= c <= 'F' then Some(c as int - 'A' as int + 10)
    else None
  }

  function Escape(u: CodeUnit): string {
    if u == '"' as int then "\\\""
    else if u == '\\' as int then "\\\\"
    else if ' ' as int <= u <= '~' as int then [u as char]
    else if u == 8 then "\\b"
    else if u == 9 then "\\t"
    else if u == 10 then "\\n"
    else if u == 12 then "\\f"
    else if u == 13 then "\\r"
    else "\\u" + [Hex(u / 0x1000), Hex(u / 0x100 % 16), Hex(u / 16 % 16), Hex(u % 16)]
  }

  function EscapeAll(t: Text): string {
    if t == [] then "" else Escape(t[0]) + EscapeAll(t[1..])
  }

  /** The first unit of a string's inside and the text after it; `None` where the string is malformed or ends. */
  function ReadUnit(s: string): Option<(CodeUnit, string)> {
    if s == "" || s[0] == '"' || s[0] < ' ' then None
    else if s[0] != '\\' then
      if s[0] as int < 0x1_0000 then Some((s[0] as int, s[1..])) else None
    else if |s| < 2 then None
    else match s[1]
      case '"' => Some(('"' as int, s[2..]))
      case '\\' => Some(('\\' as int, s[2..]))
      case '/' => Some(('/' as int, s[2..]))
      case 'b' => Some((8, s[2..]))
      case 't' => Some((9, s[2..]))
      case 'n' => Some((10, s[2..]))
      case 'f' => Some((12, s[2..]))
      case 'r' => Some((13, s[2..]))
      case 'u' =>
        if |s| < 6 then None
        else
          (match (HexValue(s[2]), HexValue(s[3]), HexValue(s[4]), HexValue(s[5]))
           case (Some(a), Some(b), Some(c), Some(d)) =>
             var u := a * 0x1000 + b * 0x100 + c * 16 + d;
             if 0 <= u < 0x1_0000 then Some((u, s[6..])) else None
           case _ => None)
      case _ => None
  }

  /** The rest of a string up to its closing quote, and the text after the quote. */
  function ReadRest(s: string): Option<(Text, string)>
    decreases |s|
  {
    if s != "" && s[0] == '"' then Some(([], s[1..]))
    else match ReadUnit(s)
      case None => None
      case Some((u, after)) =>
        if |after| < |s| then
          match ReadRest(after)
          case None => None
          case Some((t, rest)) => Some(([u] + t, rest))
        else None
  }

  lemma HexReadsBack(d: int)
    requires 0 <= d < 16
    ensures HexValue(Hex(d)) == Some(d) && '0' <= Hex(d) <= 'f'
  {
  }

  lemma HexDigits(u: CodeUnit)
    ensures 0 <= u / 0x1000 < 16
    ensures u == (u / 0x1000) * 0x1000 + (u / 0x100 % 16) * 0x100 + (u / 16 % 16) * 16 + u % 16
  {
  }

  /** A printed unit is printable ASCII, does not begin with a quote and is read back. */
  lemma EscapeReadsBack(u: CodeUnit, rest: string)
    ensures Escape(u) != "" && Escape(u)[0] != '"'
    ensures forall i :: 0 <= i < |Escape(u)| ==> ' ' <= Escape(u)[i] <= '~'
    ensures ReadUnit(Escape(u) + rest) == Some((u, rest))
  {
    var s := Escape(u) + rest;
    if |Escape(u)| == 6 {
      HexDigits(u);
      HexReadsBack(u / 0x1000);
      HexReadsBack(u / 0x100 % 16);
      HexReadsBack(u / 16 % 16);
      HexReadsBack(u % 16);
      assert s[6..] == rest;
    } else if |Escape(u)| == 2 {
      assert s[2..] == rest;
    } else {
      assert s[1..] == rest;
    }
  }

  lemma ReadOneMore(s: string, u: CodeUnit, after: string, t: Text, rest: string)
    requires s != "" && s[0] != '"' && |after| < |s|
    requires ReadUnit(s) == Some((u, after)) && ReadRest(after) == Some((t, rest))
    ensures ReadRest(s) == Some(([u] + t, rest))
  {
  }

  lemma GlueRest(a: string, b: string, c: string, d: string)
    ensures a + b + c + d == a + (b + c + d)
  {
  }

  /** Any text survives printing and reading, whatever follows the closing quote. */
  lemma {:induction false} TextReadsBack(t: Text, rest: string)
    ensures ReadRest(EscapeAll(t) + "\"" + rest) == Some((t, rest))
  {
    if t == [] {
      assert EscapeAll(t) + "\"" + rest == "\"" + rest;
    } else {
      var after := EscapeAll(t[1..]) + "\"" + rest;
      TextReadsBack(t[1..], rest);
      EscapeReadsBack(t[0], after);
      ReadOneMore(Escape(t[0]) + after, t[0], after, t[1..], rest);
      assert [t[0]] + t[1..] == t;
      GlueRest(Escape(t[0]), EscapeAll(t[1..]), "\"", rest);
    }
  }

  predicate Printable(s: string) {
    forall i :: 0 <= i < |s| ==> ' ' <= s[i] <= '~'
  }

  lemma {:induction false} EscapedIsPrintable(t: Text)
    ensures Printable(EscapeAll(t))
  {
    if t != [] {
      EscapeReadsBack(t[0], "");
      EscapedIsPrintable(t[1..]);
    }
  }

  // ------------------------------------------------------------------ the table of section 7

  function Numeral(c: char): int {
    if '0' <= c <= '9' then c as int - 48 else if 'a' <= c <= 'f' then c as int - 87 else -1
  }

  lemma NumeralOfHex(d: int)
    requires 0 <= d < 16
    ensures Numeral(Hex(d)) == d
  {
  }

  /** Code units with a short form, and those that stand for themselves. */
  lemma ShortEscapeInPlain(u: CodeUnit)
    ensures u == 34 ==> Escape(u) == "\\\""
    ensures u == 92 ==> Escape(u) == "\\\\"
    ensures u == 8 ==> Escape(u) == "\\b"
    ensures u == 9 ==> Escape(u) == "\\t"
    ensures u == 10 ==> Escape(u) == "\\n"
    ensures u == 12 ==> Escape(u) == "\\f"
    ensures u == 13 ==> Escape(u) == "\\r"
    ensures 32 <= u <= 126 && u != 34 && u != 92 ==> |Escape(u)| == 1 && Escape(u)[0] as int == u
  {
  }

  /** All others are four hexadecimal digits. */
  lemma LongEscapeInPlain(u: CodeUnit)
    requires !(32 <= u <= 126) && u !in {8, 9, 10, 12, 13}
    ensures |Escape(u)| == 6 && Escape(u)[0] == '\\' && Escape(u)[1] == 'u'
    ensures forall i :: 2 <= i < 6 ==> 0 <= Numeral(Escape(u)[i]) < 16
    ensures u == Numeral(Escape(u)[2]) * 4096 + Numeral(Escape(u)[3]) * 256 + Numeral(Escape(u)[4]) * 16
                 + Numeral(Escape(u)[5])
  {
    HexDigits(u);
    NumeralOfHex(u / 0x1000);
    NumeralOfHex(u / 0x100 % 16);
    NumeralOfHex(u / 16 % 16);
    NumeralOfHex(u % 16);
  }
}
