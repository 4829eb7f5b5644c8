/**
 * Rust's `{:?}` rendering of strings and of lists of strings
 * (`format!("{:?}", vec![...])`), and a reader for it.
 */
module RustDebug {
  import opened Wrappers
  import opened Text

  const HexDigits: string := "0123456789abcdef"

  /** ASCII control characters that have no short escape; `{:?}` writes them as `\u{..}`. */
  predicate IsOtherControl(c: char) {
    (c < ' ' || c == 127 as char) && c != '\0' && c != '\t' && c != '\r' && c != '\n'
  }

  /** Lower-case hexadecimal without leading zeros, for values below 256. */
  function Hex(n: nat): string
    requires n < 256
  {
    if n < 16 then [HexDigits[n]] else [HexDigits[n / 16], HexDigits[n % 16]]
  }

  /** `char::escape_debug` inside a string: quotes and backslashes, the short escapes, and `\u{..}` for other ASCII controls. */
  function EscapeChar(c: char): string {
    if c == '"' then "\\\""
    else if c == '\\' then "\\\\"
    else if c == '\n' then "\\n"
    else if c == '\r' then "\\r"
    else if c == '\t' then "\\t"
    else if c == '\0' then "\\0"
    else if IsOtherControl(c) then "\\u{" + Hex(c as int) + "}"
    else [c]
  }

  function Escape(s: string): string {
    if s == [] then "" else EscapeChar(s[0]) + Escape(s[1..])
  }

  /** `{:?}` of a string: the escaped text between double quotes. */
  function Quoted(s: string): string {
    "\"" + Escape(s) + "\""
  }

  function QuotedAll(xs: seq<string>): (qs: seq<string>)
    ensures |qs| == |xs|
  {
    seq(|xs|, i requires 0 <= i < |xs| => Quoted(xs[i]))
  }

  /** `{:?}` of a `Vec<String>`: the quoted items, separated by `", "`, in brackets. */
  function DebugList(xs: seq<string>): (s: string)
    ensures |s| >= 2 && s[0] == '[' && s[|s| - 1] == ']'
    ensures s == "[]" <==> xs == []
  {
    JoinLength(QuotedAll(xs));
    "[" + Join(", ", QuotedAll(xs)) + "]"
  }

  function HexValue(c: char): Option<nat> {
    if '0' <= c <= '9' then Some(c as int - '0' as int)
    else if 'a' <= c <= 'f' then Some(10 + c as int - 'a' as int)
    else None
  }

  /** Reads one escape at the start of `s` (which starts with a backslash): the character and the escape's length. */
  function Unescape(s: string): (r: Option<(char, nat)>)
    ensures r.Some? ==> 2 <= r.value.1 <= |s|
  {
    if |s| < 2 then None
    else if s[1] == '"' then Some(('"', 2))
    else if s[1] == '\\' then Some(('\\', 2))
    else if s[1] == 'n' then Some(('\n', 2))
    else if s[1] == 'r' then Some(('\r', 2))
    else if s[1] == 't' then Some(('\t', 2))
    else if s[1] == '0' then Some(('\0', 2))
    else if s[1] == 'u' && |s| >= 5 && s[2] == '{' && HexValue(s[3]).Some? && HexValue(s[3]).value < 16 && s[4] == '}' then
      Some((HexValue(s[3]).value as char, 5))
    else if s[1] == 'u' && |s| >= 6 && s[2] == '{' && HexValue(s[3]).Some? && HexValue(s[3]).value < 16
            && HexValue(s[4]).Some? && HexValue(s[4]).value < 16 && s[5] == '}' then
      Some(((HexValue(s[3]).value * 16 + HexValue(s[4]).value) as char, 6))
    else None
  }

  /** Reads the inside of a quoted string up to its closing quote: the text and what follows the quote. */
  function ParseBody(s: string): (r: Option<(string, string)>)
    ensures r.Some? ==> |r.value.1| < |s|
    decreases |s|
  {
    if s == [] then None
    else if s[0] == '"' then Some(("", s[1..]))
    else if s[0] == '\\' then
      match Unescape(s)
      case None => None
      case Some((c, n)) =>
        match ParseBody(s[n..])
        case None => None
        case Some((t, rest)) => Some(([c] + t, rest))
    else
      match ParseBody(s[1..])
      case None => None
      case Some((t, rest)) => Some(([s[0]] + t, rest))
  }

  /** Reads a quoted string at the start of `s`: the text and what follows it. */
  function ParseQuoted(s: string): (r: Option<(string, string)>)
    ensures r.Some? ==> |r.value.1| < |s|
  {
    if |s| > 0 && s[0] == '"' then ParseBody(s[1..]) else None
  }

  /** Reads the items of a non-empty list after its opening bracket. */
  function ParseItems(s: string): Option<seq<string>>
    decreases |s|
  {
    match ParseQuoted(s)
    case None => None
    case Some((x, rest)) =>
      if rest == "]" then Some([x])
      else if |rest| >= 2 && rest[..2] == ", " then
        match ParseItems(rest[2..])
        case None => None
        case Some(xs) => Some([x] + xs)
      else None
  }

  /** Reads a `{:?}` list of strings. */
  function ParseList(s: string): Option<seq<string>> {
    if s == "[]" then Some([])
    else if |s| > 0 && s[0] == '[' then ParseItems(s[1..])
    else None
  }

  lemma HexDigitValue(n: nat)
    requires n < 16
    ensures HexValue(HexDigits[n]) == Some(n)
  {
  }

  /** Reading an escaped character gives the character back and goes on after it. */
  lemma EscapeCharParses(c: char, rest: string)
    ensures ParseBody(EscapeChar(c) + rest) ==
            match ParseBody(rest)
            case None => None
            case Some((t, r)) => Some(([c] + t, r))
  {
    var e := EscapeChar(c);
    var s := e + rest;
    if e == [c] {
      assert s[1..] == rest;
    } else {
      assert s[0] == '\\';
      if IsOtherControl(c) {
        var n := c as int;
        if n < 16 {
          HexDigitValue(n);
          assert s[..5] == e;
        } else {
          HexDigitValue(n / 16);
          HexDigitValue(n % 16);
          assert s[..6] == e;
        }
      } else {
        assert s[..2] == e;
      }
      assert Unescape(s) == Some((c, |e|));
      assert s[|e|..] == rest;
    }
  }

  /** Reading an escaped text followed by a closing quote gives the text back and what follows the quote. */
  lemma {:induction false} EscapeParses(x: string, rest: string)
    ensures ParseBody(Escape(x) + "\"" + rest) == Some((x, rest))
    decreases |x|
  {
    if x == [] {
      assert Escape(x) + "\"" + rest == "\"" + rest;
      assert ("\"" + rest)[1..] == rest;
    } else {
      EscapeParses(x[1..], rest);
      assert Escape(x) + "\"" + rest == EscapeChar(x[0]) + (Escape(x[1..]) + "\"" + rest);
      EscapeCharParses(x[0], Escape(x[1..]) + "\"" + rest);
      assert [x[0]] + x[1..] == x;
    }
  }

  /** A quoted string is read back exactly, whatever follows it. */
  lemma QuotedParses(x: string, rest: string)
    ensures ParseQuoted(Quoted(x) + rest) == Some((x, rest))
  {
    var s := Quoted(x) + rest;
    assert s[1..] == Escape(x) + "\"" + rest;
    EscapeParses(x, rest);
  }

  lemma {:induction false} ItemsParse(xs: seq<string>)
    requires |xs| > 0
    ensures ParseItems(Join(", ", QuotedAll(xs)) + "]") == Some(xs)
    decreases |xs|
  {
    var qs := QuotedAll(xs);
    if |xs| == 1 {
      assert Join(", ", qs) == Quoted(xs[0]);
      QuotedParses(xs[0], "]");
      assert xs == [xs[0]];
    } else {
      assert QuotedAll(xs[1..]) == qs[1..];
      var tail := Join(", ", qs[1..]) + "]";
      assert Join(", ", qs) + "]" == Quoted(xs[0]) + (", " + tail);
      QuotedParses(xs[0], ", " + tail);
      assert (", " + tail)[..2] == ", ";
      assert (", " + tail)[2..] == tail;
      ItemsParse(xs[1..]);
      assert [xs[0]] + xs[1..] == xs;
    }
  }

  /** A bracketed, non-empty body is read item by item. */
  lemma BracketedItems(body: string)
    requires |body| > 0
    ensures ParseList("[" + body + "]") == ParseItems(body + "]")
  {
    var s := "[" + body + "]";
    assert |s| > 2;
    assert s[1..] == body + "]";
  }

  /** Every `{:?}` rendering of a list of strings reads back as that list: the rendering loses nothing. */
  lemma DebugListRoundTrip(xs: seq<string>)
    ensures ParseList(DebugList(xs)) == Some(xs)
  {
    if xs == [] {
      assert DebugList(xs) == "[]";
    } else {
      var body := Join(", ", QuotedAll(xs));
      JoinLength(QuotedAll(xs));
      BracketedItems(body);
      ItemsParse(xs);
    }
  }

  lemma {:induction false} JoinLength(qs: seq<string>)
    ensures |qs| > 0 ==> |Join(", ", qs)| >= |qs[0]|
  {
  }
}
