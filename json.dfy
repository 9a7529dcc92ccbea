/** The part of Python's `json` module the modelled code uses. `json.loads`
    is a foreign parser: members that call it take it as a `Decoder`
    parameter. `json.dumps` is only ever applied to a list of strings, and
    is written out here with its default settings (`", "` between items,
    every character outside printable ASCII escaped). */
module Json {
  import opened Wrappers
  import opened Text

  /** A decoded JSON document as the modelled code distinguishes it: a list
      (of strings), or any other value, carried as the text `str()` gives it. */
  datatype Json = JList(items: seq<string>) | JScalar(shown: string)

  /** `json.loads`; `None` stands for a `JSONDecodeError`. */
  type Decoder = string -> Option<Json>

  predicate Printable(c: char) { ' ' <= c <= '~' }

  predicate AllPrintable(s: string) { forall i | 0 <= i < |s| :: Printable(s[i]) }

  function HexDigit(d: nat): (c: char)
    requires d < 16
    ensures Printable(c)
  {
    if d < 10 then DigitChar(d) else ('a' as int + d - 10) as char
  }

  /** Four lower-case hexadecimal digits of `n`. */
  function Hex4(n: nat): (r: string)
    requires n < 0x1_0000
    ensures |r| == 4 && AllPrintable(r)
  {
    [HexDigit(n / 0x1000), HexDigit(n / 0x100 % 16), HexDigit(n / 16 % 16), HexDigit(n % 16)]
  }

  /** The JSON text of one character inside a string literal. */
  function EscapeChar(c: char): (r: string)
    ensures |r| >= 1 && AllPrintable(r)
  {
    if c == '"' then "\\\""
    else if c == '\\' then "\\\\"
    else if c == '\n' then "\\n"
    else if c == '\r' then "\\r"
    else if c == '\t' then "\\t"
    else if c as int == 8 then "\\b"
    else if c as int == 12 then "\\f"
    else if Printable(c) then [c]
    else if c as int < 0x1_0000 then "\\u" + Hex4(c as int)
    else
      // a character outside the basic plane is written as a surrogate pair
      var n := c as int - 0x1_0000;
      "\\u" + Hex4(0xd800 + n / 0x400) + "\\u" + Hex4(0xdc00 + n % 0x400)
  }

  function Escape(s: string): (r: string)
    ensures AllPrintable(r)
  {
    if s == [] then "" else EscapeChar(s[0]) + Escape(s[1..])
  }

  function Items(items: seq<string>): (r: string)
    ensures AllPrintable(r)
  {
    if items == [] then ""
    else
      var first := "\"" + Escape(items[0]) + "\"";
      if |items| == 1 then first else first + ", " + Items(items[1..])
  }

  /** `json.dumps(items)` for a list of strings: a bracketed, printable
      ASCII text. */
  function Dumps(items: seq<string>): (r: string)
    ensures |r| >= 2 && r[0] == '[' && r[|r| - 1] == ']'
    ensures AllPrintable(r)
  {
    "[" + Items(items) + "]"
  }

  /** A decoder that reads back what `Dumps` writes. */
  ghost predicate ReadsDumps(loads: Decoder) {
    forall items :: loads(Dumps(items)) == Some(JList(items))
  }
}
