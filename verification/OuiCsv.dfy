// Reading the manufacturer registry and writing it out as Rust source: the CSV
// line reader (section 2 of RFC 4180), the name sanitiser, and the escaping of
// a name into a string literal.
module OuiCsv {
  import opened Text

  // --------------------------------------------------------------------- trimming

  /** Unicode White_Space. */
  predicate IsWhite(c: char) {
    || '\U{9}' <= c <= '\U{D}' || c == ' ' || c == '\U{85}' || c == '\U{A0}' || c == '\U{1680}'
    || '\U{2000}' <= c <= '\U{200A}' || c == '\U{2028}' || c == '\U{2029}' || c == '\U{202F}'
    || c == '\U{205F}' || c == '\U{3000}'
  }

  function TrimStart(s: string): string {
    if s != [] && IsWhite(s[0]) then TrimStart(s[1..]) else s
  }

  function TrimEnd(s: string): string {
    if s != [] && IsWhite(s[|s| - 1]) then TrimEnd(s[..|s| - 1]) else s
  }

  function Trim(s: string): string { TrimEnd(TrimStart(s)) }

  predicate AllWhite(s: string) { forall i :: 0 <= i < |s| ==> IsWhite(s[i]) }

  /** Trimming takes off white space at both ends, all of it, and nothing else. */
  lemma TrimMeaning(s: string) returns (before: string, after: string)
    ensures s == before + Trim(s) + after && AllWhite(before) && AllWhite(after)
    ensures Trim(s) != [] ==> !IsWhite(Trim(s)[0]) && !IsWhite(Trim(s)[|Trim(s)| - 1])
  {
    hide IsWhite, TrimStart, TrimEnd;
    before := TrimStartMeaning(s);
    after := TrimEndMeaning(TrimStart(s));
    TrimStartClean(s);
    TrimEndIdempotent(TrimStart(s));
    if TrimStart(s) == [] { TrimEndOfNothing(); }
  }

  lemma {:induction false} TrimStartMeaning(s: string) returns (before: string)
    ensures s == before + TrimStart(s) && AllWhite(before)
  {
    hide IsWhite;
    before := [];
    if s != [] && IsWhite(s[0]) {
      var rest := TrimStartMeaning(s[1..]);
      before := [s[0]] + rest;
      assert s == [s[0]] + s[1..];
    }
  }

  lemma {:induction false} TrimEndMeaning(s: string) returns (after: string)
    ensures s == TrimEnd(s) + after && AllWhite(after)
  {
    hide IsWhite;
    after := [];
    if s != [] && IsWhite(s[|s| - 1]) {
      var rest := TrimEndMeaning(s[..|s| - 1]);
      after := rest + [s[|s| - 1]];
      assert s == s[..|s| - 1] + [s[|s| - 1]];
    }
  }

  // ------------------------------------------------------------- the line automaton

  /** The fields of `line` read with `current` collected so far, inside quotes or not. */
  function Fields(line: string, current: string, inQuotes: bool): seq<string>
    decreases |line|
  {
    if line == [] then [Trim(current)]
    else if line[0] == '"' && !inQuotes then Fields(line[1..], current, true)
    else if line[0] == '"' then
      if |line| > 1 && line[1] == '"' then Fields(line[2..], current + ['"'], true)
      else Fields(line[1..], current, false)
    else if line[0] == ',' && !inQuotes then [Trim(current)] + Fields(line[1..], [], false)
    else Fields(line[1..], current + [line[0]], inQuotes)
  }

  method ParseCsvLine(line: string) returns (fields: seq<string>)
    ensures fields == Fields(line, [], false)
  {
    hide Trim;
    fields := [];
    var current, inQuotes, i := [], false, 0;
    assert line[0..] == line;
    while i < |line|
      invariant 0 <= i <= |line|
      invariant fields + Fields(line[i..], current, inQuotes) == Fields(line, [], false)
    {
      var c := line[i];
      var rest := line[i..];
      assert rest[0] == c && rest[1..] == line[i + 1..];
      if c == '"' && !inQuotes {
        inQuotes := true;
      } else if c == '"' {
        if i + 1 < |line| && line[i + 1] == '"' {
          assert rest[1] == '"' && rest[2..] == line[i + 2..];
          current := current + ['"'];
          i := i + 1;
        } else {
          inQuotes := false;
        }
      } else if c == ',' && !inQuotes {
        fields := fields + [Trim(current)];
        current := [];
      } else {
        current := current + [c];
      }
      i := i + 1;
    }
    fields := fields + [Trim(current)];
  }

  // ----------------------------------------------------------- reading back an encoding

  /** A field to write; one holding a quote or a comma has to be quoted. */
  datatype Field = Field(text: string, quoted: bool)

  predicate Encodable(f: Field) { f.quoted || ('"' !in f.text && ',' !in f.text) }

  /** Quotes inside a quoted field are doubled. */
  function Doubled(s: string): string {
    if s == [] then []
    else if s[0] == '"' then ['"', '"'] + Doubled(s[1..])
    else [s[0]] + Doubled(s[1..])
  }

  function Encoded(f: Field): string { if f.quoted then ['"'] + Doubled(f.text) + ['"'] else f.text }

  function EncodedLine(fields: seq<Field>): string {
    if fields == [] then []
    else if |fields| == 1 then Encoded(fields[0])
    else Encoded(fields[0]) + [','] + EncodedLine(fields[1..])
  }

  function Trimmed(fields: seq<Field>): seq<string> {
    if fields == [] then [] else [Trim(fields[0].text)] + Trimmed(fields[1..])
  }

  /** Inside quotes everything up to the closing quote is taken literally. */
  lemma {:induction false} QuotedText(s: string, rest: string, current: string)
    requires rest == [] || rest[0] != '"'
    ensures Fields(Doubled(s) + ['"'] + rest, current, true) == Fields(rest, current + s, false)
    decreases |s|
  {
    hide Trim;
    var line := Doubled(s) + ['"'] + rest;
    if s == [] {
      assert line == ['"'] + rest && line[1..] == rest;
      assert current + s == current;
    } else if s[0] == '"' {
      assert line == ['"', '"'] + (Doubled(s[1..]) + ['"'] + rest);
      assert line[2..] == Doubled(s[1..]) + ['"'] + rest;
      QuotedText(s[1..], rest, current + ['"']);
      assert current + ['"'] + s[1..] == current + s;
    } else {
      assert line == [s[0]] + (Doubled(s[1..]) + ['"'] + rest);
      assert line[1..] == Doubled(s[1..]) + ['"'] + rest;
      QuotedText(s[1..], rest, current + [s[0]]);
      assert current + [s[0]] + s[1..] == current + s;
    }
  }

  lemma {:induction false} PlainText(s: string, rest: string, current: string)
    requires '"' !in s && ',' !in s
    ensures Fields(s + rest, current, false) == Fields(rest, current + s, false)
    decreases |s|
  {
    hide Trim;
    if s == [] {
      assert s + rest == rest && current + s == current;
    } else {
      assert (s + rest)[1..] == s[1..] + rest;
      PlainText(s[1..], rest, current + [s[0]]);
      assert current + [s[0]] + s[1..] == current + s;
    }
  }

  lemma {:induction false} FieldRead(f: Field, rest: string)
    requires Encodable(f) && (rest == [] || rest[0] == ',')
    ensures Fields(Encoded(f) + rest, [], false) == Fields(rest, f.text, false)
  {
    hide Trim;
    if f.quoted {
      var line := Encoded(f) + rest;
      assert line == ['"'] + (Doubled(f.text) + ['"'] + rest);
      assert line[1..] == Doubled(f.text) + ['"'] + rest;
      QuotedText(f.text, rest, []);
      assert [] + f.text == f.text;
    } else {
      PlainText(f.text, rest, []);
      assert [] + f.text == f.text;
    }
  }

  /** Reading the RFC 4180 encoding of any fields, quoted or not, gives those fields trimmed. */
  lemma {:induction false} ReadsBackEncoding(fields: seq<Field>)
    requires fields != [] && forall i :: 0 <= i < |fields| ==> Encodable(fields[i])
    ensures Fields(EncodedLine(fields), [], false) == Trimmed(fields)
  {
    hide Trim, Encodable;
    var f, more := fields[0], fields[1..];
    if |fields| == 1 {
      FieldRead(f, []);
      assert Encoded(f) + [] == Encoded(f);
      assert Trimmed(more) == [];
    } else {
      ReadsBackEncoding(more);
      var rest := [','] + EncodedLine(more);
      FieldRead(f, rest);
      assert Encoded(f) + rest == Encoded(f) + [','] + EncodedLine(more);
      assert rest[1..] == EncodedLine(more);
    }
  }

  // -------------------------------------------------------------------- sanitising

  /** Unicode general category Cc. */
  predicate IsControl(c: char) { c <= '\U{1F}' || '\U{7F}' <= c <= '\U{9F}' }

  predicate Kept(c: char) {
    !IsControl(c) && c !in {'\U{200B}', '\U{200C}', '\U{200D}', '\U{AD}', '\U{FEFF}', '\U{FFFD}', '\U{2060}', '\U{2028}', '\U{2029}'}
  }

  /** The permitted characters by code point: no controls, no zero-width or separator marks, no replacement character. */
  lemma KeptCodes(c: char)
    ensures Kept(c) <==>
            && c as int >= 0x20 && !(0x7F <= c as int <= 0x9F) && c as int != 0xAD
            && !(0x200B <= c as int <= 0x200D) && c as int != 0x2028 && c as int != 0x2029
            && c as int != 0x2060 && c as int != 0xFEFF && c as int != 0xFFFD
  {
  }

  function KeptOnly(s: string): string {
    if s == [] then [] else if Kept(s[0]) then [s[0]] + KeptOnly(s[1..]) else KeptOnly(s[1..])
  }

  function SanitizeOrgName(name: string): string { Trim(KeptOnly(name)) }

  lemma {:induction false} KeptOnlyKeeps(s: string, c: char)
    ensures c in KeptOnly(s) <==> c in s && Kept(c)
  {
    hide Kept;
    if s != [] { KeptOnlyKeeps(s[1..], c); }
  }

  lemma {:induction false} TrimMembers(s: string, c: char)
    ensures c in TrimStart(s) ==> c in s
    ensures c in TrimEnd(s) ==> c in s
  {
    hide IsWhite;
    if s != [] {
      TrimMembers(s[1..], c);
      TrimMembers(s[..|s| - 1], c);
    }
  }

  lemma {:induction false} TrimEndIdempotent(s: string)
    ensures TrimEnd(s) == [] || !IsWhite(TrimEnd(s)[|TrimEnd(s)| - 1])
    ensures s != [] && !IsWhite(s[0]) ==> TrimEnd(s) != [] && TrimEnd(s)[0] == s[0]
  {
    hide IsWhite;
    if s != [] && IsWhite(s[|s| - 1]) { TrimEndIdempotent(s[..|s| - 1]); }
  }

  lemma {:induction false} TrimStartClean(s: string)
    ensures TrimStart(s) == [] || !IsWhite(TrimStart(s)[0])
  {
    hide IsWhite;
    if s != [] && IsWhite(s[0]) { TrimStartClean(s[1..]); }
  }

  /** The name without its forbidden characters, every other one in place. */
  lemma {:induction false} KeptOnlyInPlace(a: string, c: char, b: string)
    ensures KeptOnly(a + [c] + b) == KeptOnly(a) + (if Kept(c) then [c] else []) + KeptOnly(b)
  {
    hide Kept;
    if a == [] {
      assert a + [c] + b == [c] + b && ([c] + b)[1..] == b;
    } else {
      assert (a + [c] + b)[1..] == a[1..] + [c] + b;
      KeptOnlyInPlace(a[1..], c, b);
    }
  }

  /** A name of permitted characters without outer white space is left alone. */
  lemma CleanNameStays(name: string)
    requires forall i :: 0 <= i < |name| ==> Kept(name[i])
    requires name != [] ==> !IsWhite(name[0]) && !IsWhite(name[|name| - 1])
    ensures SanitizeOrgName(name) == name
  {
    hide Kept, IsWhite;
    AllKept(name);
  }

  lemma {:induction false} AllKept(s: string)
    requires forall i :: 0 <= i < |s| ==> Kept(s[i])
    ensures KeptOnly(s) == s
  {
    hide Kept;
    if s != [] {
      AllKept(s[1..]);
      assert s == [s[0]] + s[1..];
    }
  }

  /** A sanitised name has no forbidden character and no white space at either end. */
  lemma SanitizedName(name: string)
    ensures var s := SanitizeOrgName(name);
            && (forall c :: c in s ==> c in name && Kept(c))
            && (s != [] ==> !IsWhite(s[0]) && !IsWhite(s[|s| - 1]))
  {
    hide Kept, IsWhite, KeptOnly, TrimStart, TrimEnd;
    var k := KeptOnly(name);
    forall c | c in SanitizeOrgName(name) ensures c in name && Kept(c) {
      TrimMembers(TrimStart(k), c);
      TrimMembers(k, c);
      KeptOnlyKeeps(name, c);
    }
    TrimStartClean(k);
    TrimEndIdempotent(TrimStart(k));
    if TrimStart(k) == [] { TrimEndOfNothing(); }
  }

  lemma TrimEndOfNothing()
    ensures TrimEnd([]) == []
  {
  }

  // ------------------------------------------------------------------ string literals

  /** `s.replace(c, with)`. */
  function Replaced(s: string, c: char, with: string): string {
    if s == [] then [] else (if s[0] == c then with else [s[0]]) + Replaced(s[1..], c, with)
  }

  /** The two replacements, backslashes first. */
  function Escaped(s: string): string { Replaced(Replaced(s, '\\', "\\\\"), '"', "\\\"") }

  function EscapedChar(c: char): string {
    if c == '\\' then "\\\\" else if c == '"' then "\\\"" else [c]
  }

  lemma {:induction false} ReplacedAppend(a: string, b: string, c: char, with: string)
    ensures Replaced(a + b, c, with) == Replaced(a, c, with) + Replaced(b, c, with)
  {
    if a == [] {
      assert a + b == b;
    } else {
      assert (a + b)[1..] == a[1..] + b;
      ReplacedAppend(a[1..], b, c, with);
    }
  }

  /** The sequential replacements escape character by character. */
  lemma EscapedHead(s: string)
    requires s != []
    ensures Escaped(s) == EscapedChar(s[0]) + Escaped(s[1..])
  {
    var head := if s[0] == '\\' then "\\\\" else [s[0]];
    var tail := Replaced(s[1..], '\\', "\\\\");
    assert Replaced(s, '\\', "\\\\") == head + tail;
    ReplacedAppend(head, tail, '"', "\\\"");
    assert Replaced(head, '"', "\\\"") == EscapedChar(s[0]) by {
      if s[0] == '\\' {
        assert "\\\\"[1..] == "\\" && "\\"[1..] == [];
        assert Replaced("\\", '"', "\\\"") == "\\";
      } else {
        assert [s[0]][1..] == [];
      }
    }
  }

  /** What a simple escape in a Rust string literal stands for. */
  function Unescape(c: char): Option<char> {
    if c == '\\' || c == '"' || c == '\'' then Some(c)
    else if c == 'n' then Some('\n')
    else if c == 'r' then Some('\r')
    else if c == 't' then Some('\t')
    else if c == '0' then Some('\0')
    else None
  }

  /** Rust's lexer after an opening quote: the literal's value and the text behind the closing quote. */
  function LexString(s: string): Option<(string, string)>
    decreases |s|
  {
    if s == [] || s[0] == '\r' then None
    else if s[0] == '"' then Some(([], s[1..]))
    else if s[0] == '\\' then
      if |s| < 2 || Unescape(s[1]).None? then None
      else
        var r := LexString(s[2..]);
        if r.None? then None else Some(([Unescape(s[1]).value] + r.value.0, r.value.1))
    else
      var r := LexString(s[1..]);
      if r.None? then None else Some(([s[0]] + r.value.0, r.value.1))
  }

  /** The escaped body reads back as the text and ends at the quote written after it, not before. */
  lemma {:induction false} LiteralReadsBack(s: string, rest: string)
    requires '\r' !in s
    ensures LexString(Escaped(s) + ['"'] + rest) == Some((s, rest))
    decreases |s|
  {
    hide Escaped;
    var line := Escaped(s) + ['"'] + rest;
    if s == [] {
      assert Escaped(s) == [] by { EscapedNothing(); }
      assert line[1..] == rest;
    } else {
      EscapedHead(s);
      LiteralReadsBack(s[1..], rest);
      var more := Escaped(s[1..]) + ['"'] + rest;
      assert line == EscapedChar(s[0]) + more;
      assert s == [s[0]] + s[1..];
      if s[0] == '\\' || s[0] == '"' {
        assert line[0] == '\\' && line[1] == s[0] && line[2..] == more;
      } else {
        assert line[0] == s[0] && line[1..] == more;
      }
    }
  }

  lemma EscapedNothing()
    ensures Escaped([]) == []
  {
  }

  /** Every registered name survives sanitising, escaping and Rust's lexer. */
  lemma {:induction false} GeneratedNameReadsBack(name: string, rest: string)
    ensures LexString(Escaped(SanitizeOrgName(name)) + ['"'] + rest) == Some((SanitizeOrgName(name), rest))
  {
    hide Escaped, SanitizeOrgName, LexString;
    SanitizedName(name);
    assert !Kept('\r');
    LiteralReadsBack(SanitizeOrgName(name), rest);
  }
}
