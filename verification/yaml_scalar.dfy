/**
  `yaml_escape` (scripts/export_issues.py): writes a text value as a YAML
  scalar, plain when it is safe and double-quoted otherwise.

  The quoted form follows the double-quoted style of section 7.3.1 of YAML 1.2
  only partly: backslash and double quote are escaped, every other character,
  a line feed included, is written as it is.
 */
module YamlScalar {
  import opened Wrappers
  import opened Text

  /** The characters whose presence makes `yaml_escape` quote its input. */
  predicate IsIndicator(c: char) {
    || c == ':' || c == '#' || c == '{' || c == '}' || c == '[' || c == ']'
    || c == ',' || c == '&' || c == '*' || c == '?' || c == '|' || c == '>'
    || c == '-' || c == '@' || c == '`' || c == '"' || c == '\'' || c == '\n'
  }

  predicate HasIndicator(text: string) {
    exists i :: 0 <= i < |text| && IsIndicator(text[i])
  }

  /** Whitespace at either end, which is what makes `text.strip() != text`. */
  predicate EdgeSpace(text: string) {
    text != [] && (IsPySpace(text[0]) || IsPySpace(text[|text| - 1]))
  }

  /** Quote when an indicator occurs or when stripping whitespace would change the text. */
  predicate NeedsQuotes(text: string) {
    HasIndicator(text) || EdgeSpace(text)
  }

  /** The escape of one character inside double quotes. */
  function EscapeChar(c: char): string {
    if c == '\\' then "\\\\" else if c == '"' then "\\\"" else [c]
  }

  /** Every character escaped in turn. */
  function EscapeEach(text: string): string
    decreases |text|
  {
    if text == [] then [] else EscapeChar(text[0]) + EscapeEach(text[1..])
  }

  /** `text.replace("\\", "\\\\").replace('"', '\\"')`: two passes, backslashes first. */
  function EscapeBody(text: string): string {
    ReplaceChar(ReplaceChar(text, '\\', "\\\\"), '"', "\\\"")
  }

  /** `yaml_escape(text)`. */
  function YamlEscape(text: string): string {
    if !NeedsQuotes(text) then text else "\"" + EscapeBody(text) + "\""
  }

  /**
    Reads back the inside of a double-quoted scalar: `\\` and `\"` stand for
    `\` and `"`. A bare `"` (which would end the scalar early) or any other
    backslash sequence is rejected.
   */
  function Unescape(s: string): Option<string>
    decreases |s|
  {
    if s == [] then Some([])
    else if s[0] == '"' then None
    else if s[0] == '\\' then
      if |s| >= 2 && (s[1] == '\\' || s[1] == '"') then
        match Unescape(s[2..])
        case Some(rest) => Some([s[1]] + rest)
        case None => None
      else None
    else
      match Unescape(s[1..])
      case Some(rest) => Some([s[0]] + rest)
      case None => None
  }

  /** How a reader takes a scalar `yaml_escape` wrote: unquote if quoted, else as is. */
  function ReadScalar(r: string): Option<string> {
    if r != [] && r[0] == '"' then
      if |r| >= 2 && r[|r| - 1] == '"' then Unescape(r[1..|r| - 1]) else None
    else Some(r)
  }

  // ---------------------------------------------------------------------------
  // Lemmas
  // ---------------------------------------------------------------------------

  lemma {:induction false} EscapeEachAppend(a: string, b: string)
    ensures EscapeEach(a + b) == EscapeEach(a) + EscapeEach(b)
    decreases |a|
  {
    if a != [] {
      assert (a + b)[0] == a[0];
      assert (a + b)[1..] == a[1..] + b;
      EscapeEachAppend(a[1..], b);
    } else {
      assert a + b == b;
    }
  }

  /** The two `replace` passes escape each character on its own. */
  lemma {:induction false} EscapeBodyIsEach(text: string)
    ensures EscapeBody(text) == EscapeEach(text)
    decreases |text|
  {
    if text != [] {
      var c := text[0];
      var first := if c == '\\' then "\\\\" else [c];
      assert ReplaceChar(text, '\\', "\\\\") == first + ReplaceChar(text[1..], '\\', "\\\\");
      ReplaceCharAppend(first, ReplaceChar(text[1..], '\\', "\\\\"), '"', "\\\"");
      EscapeBodyIsEach(text[1..]);
      if c == '\\' {
        assert ReplaceChar(first, '"', "\\\"") == "\\\\" by {
          assert first[1..] == "\\";
          assert first[1..][1..] == [];
        }
      } else {
        assert first[1..] == [];
      }
    }
  }

  lemma {:induction false} EscapeEachLength(text: string)
    ensures |EscapeEach(text)| >= |text|
    decreases |text|
  {
    if text != [] {
      EscapeEachLength(text[1..]);
    }
  }

  lemma {:induction false} EscapeEachNewline(text: string)
    ensures '\n' in EscapeEach(text) <==> '\n' in text
    decreases |text|
  {
    if text != [] {
      EscapeEachNewline(text[1..]);
      var e := EscapeChar(text[0]);
      assert '\n' in e <==> text[0] == '\n';
      assert '\n' in e + EscapeEach(text[1..]) <==> '\n' in e || '\n' in EscapeEach(text[1..]);
      assert text == [text[0]] + text[1..];
    }
  }

  /** Unescaping an escaped text gives the text back. */
  lemma {:induction false} UnescapeEscape(text: string)
    ensures Unescape(EscapeEach(text)) == Some(text)
    decreases |text|
  {
    if text != [] {
      var c := text[0];
      var s := EscapeEach(text);
      UnescapeEscape(text[1..]);
      assert s == EscapeChar(c) + EscapeEach(text[1..]);
      if c == '\\' || c == '"' {
        assert s[2..] == EscapeEach(text[1..]);
        assert s[0] == '\\' && s[1] == c;
      } else {
        assert s[1..] == EscapeEach(text[1..]);
      }
      assert [c] + text[1..] == text;
    }
  }

  /** Whatever `Unescape` accepts is exactly the escape of what it returns. */
  lemma {:induction false} EscapeUnescape(s: string)
    requires Unescape(s).Some?
    ensures EscapeEach(Unescape(s).value) == s
    decreases |s|
  {
    if s != [] {
      if s[0] == '\\' {
        EscapeUnescape(s[2..]);
        var t := Unescape(s).value;
        assert t == [s[1]] + Unescape(s[2..]).value;
        assert t[1..] == Unescape(s[2..]).value;
        assert s == s[..2] + s[2..];
      } else {
        EscapeUnescape(s[1..]);
        var t := Unescape(s).value;
        assert t[1..] == Unescape(s[1..]).value;
        assert s == [s[0]] + s[1..];
      }
    }
  }

  /** In text `Unescape` accepts, every double quote is preceded by a backslash. */
  lemma {:induction false} UnescapedQuotes(s: string, i: nat)
    requires Unescape(s).Some?
    requires i < |s| && s[i] == '"'
    ensures i > 0 && s[i - 1] == '\\'
    decreases |s|
  {
    if s[0] == '\\' {
      if i > 1 {
        UnescapedQuotes(s[2..], i - 2);
      }
    } else {
      UnescapedQuotes(s[1..], i - 1);
    }
  }

  /**
    Text that needs no quotes is written as it is, and only that text: quoted
    output differs from its input. Quoted output is a double quote, text that
    unescapes to the input, and a closing double quote.
   */
  lemma YamlEscapeForm(text: string)
    ensures YamlEscape(text) == text <==> !NeedsQuotes(text)
    ensures var r := YamlEscape(text);
            NeedsQuotes(text) ==>
              && |r| >= 2 && r[0] == '"' && r[|r| - 1] == '"'
              && Unescape(r[1..|r| - 1]) == Some(text)
  {
    if NeedsQuotes(text) {
      var r := YamlEscape(text);
      EscapeBodyIsEach(text);
      UnescapeEscape(text);
      EscapeEachLength(text);
      assert r[1..|r| - 1] == EscapeBody(text);
    }
  }

  /** Escaping neither adds nor removes line feeds. */
  lemma YamlEscapeNewline(text: string)
    ensures '\n' in YamlEscape(text) <==> '\n' in text
  {
    if NeedsQuotes(text) {
      EscapeBodyIsEach(text);
      EscapeEachNewline(text);
      assert '\n' in YamlEscape(text) <==> '\n' in EscapeBody(text);
    }
  }

  /** A reader gets back exactly the text `yaml_escape` was given. */
  lemma ReadScalarYamlEscape(text: string)
    ensures ReadScalar(YamlEscape(text)) == Some(text)
  {
    YamlEscapeForm(text);
    if !NeedsQuotes(text) && text != [] {
      assert !IsIndicator(text[0]);
    }
  }

  /** Whitespace at an end is exactly what `strip()` would remove. */
  lemma EdgeSpaceStrip(text: string)
    ensures EdgeSpace(text) <==> PyStrip(text) != text
  {
    TrimUnchanged(text, IsPySpace);
  }

  /** The empty string is written as nothing at all. */
  lemma YamlEscapeEmpty()
    ensures YamlEscape("") == ""
  {
  }
}
