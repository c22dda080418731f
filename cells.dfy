/** The cell values the Google Sheets API hands back (`serde_json::Value`),
    reduced to the one distinction the bot makes: a JSON string, or any
    other JSON value, kept as its JSON text. */
module Cells {
  import opened Text

  /** The JSON text of a non-string value (`null`, `true`, `12`, `[]`, ...),
      which is never empty. */
  type JsonText = s: string | |s| > 0 witness "null"

  datatype Cell = Str(text: string) | NonStr(json: JsonText)

  /** A spreadsheet row: `Vec<Value>`. */
  type Row = seq<Cell>

  function HexDigit(d: nat): char
    requires d < 16
  {
    if d < 10 then ('0' as int + d) as char else ('a' as int + d - 10) as char
  }

  /** A character that serde_json writes unchanged inside a string literal. */
  predicate IsPlainJsonChar(c: char) {
    c != '"' && c != '\\' && c >= ' '
  }

  /** How serde_json writes one character inside a string literal. */
  function EscapeChar(c: char): (r: string)
    ensures IsPlainJsonChar(c) <==> r == [c]
  {
    if c == '"' then "\\\""
    else if c == '\\' then "\\\\"
    else if c == '\n' then "\\n"
    else if c == '\r' then "\\r"
    else if c == '\t' then "\\t"
    else if c == '\U{8}' then "\\b"
    else if c == '\U{C}' then "\\f"
    else if c < ' ' then "\\u00" + [HexDigit(c as int / 16), HexDigit(c as int % 16)]
    else [c]
  }

  function JsonEscape(s: string): string {
    if s == [] then [] else EscapeChar(s[0]) + JsonEscape(s[1..])
  }

  /** `Value::to_string`: a string cell comes back as a quoted, escaped
      JSON literal; any other value as its JSON text. */
  function Render(c: Cell): (r: string)
    ensures |r| > 0
    ensures c.Str? ==> |r| >= 2 && r[0] == '"' && r[|r| - 1] == '"'
  {
    match c
    case Str(t) => "\"" + JsonEscape(t) + "\""
    case NonStr(j) => j
  }

  /** A string without characters serde_json escapes renders as itself
      between two quotes. */
  lemma {:induction false} RenderPlain(t: string)
    requires forall c :: c in t ==> IsPlainJsonChar(c)
    ensures Render(Str(t)) == "\"" + t + "\""
  {
    JsonEscapePlain(t);
  }

  lemma {:induction false} JsonEscapePlain(s: string)
    requires forall c :: c in s ==> IsPlainJsonChar(c)
    ensures JsonEscape(s) == s
  {
    if s != [] {
      assert s[0] in s;
      assert forall c :: c in s[1..] ==> c in s;
      JsonEscapePlain(s[1..]);
      assert s == [s[0]] + s[1..];
    }
  }
}
