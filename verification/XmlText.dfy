/** Escaping text for XML by successive replacements. */
module XmlText {
  import opened Wrappers
  import opened Text

  function XmlEscape(value: string): string {
    var amp := Replace(value, '&', "&amp;");
    var lt := Replace(amp, '<', "&lt;");
    var gt := Replace(lt, '>', "&gt;");
    var quot := Replace(gt, '"', "&quot;");
    Replace(quot, '\'', "&apos;")
  }

  /** Character data with the predefined entities of section 4.6 of XML 1.0; None when it is not well-formed. */
  function XmlDecode(s: string): Option<string>
    decreases |s|
  {
    if s == [] then Some([])
    else if s[0] == '<' then None
    else if s[0] != '&' then Prepend(s[0], XmlDecode(s[1..]))
    else if "&amp;" <= s then Prepend('&', XmlDecode(s[5..]))
    else if "&lt;" <= s then Prepend('<', XmlDecode(s[4..]))
    else if "&gt;" <= s then Prepend('>', XmlDecode(s[4..]))
    else if "&quot;" <= s then Prepend('"', XmlDecode(s[6..]))
    else if "&apos;" <= s then Prepend('\'', XmlDecode(s[6..]))
    else None
  }

  function Prepend(c: char, rest: Option<string>): Option<string> {
    if rest.None? then None else Some([c] + rest.value)
  }

  /** What the whole chain makes of one character. */
  function Entity(c: char): string {
    if c == '&' then "&amp;"
    else if c == '<' then "&lt;"
    else if c == '>' then "&gt;"
    else if c == '"' then "&quot;"
    else if c == '\'' then "&apos;"
    else [c]
  }

  predicate Markup(c: char) {
    c == '<' || c == '>' || c == '"' || c == '\''
  }

  /** Escaped text holds no markup character, so it ends neither an element nor an attribute. */
  lemma {:induction false} EscapedHasNoMarkup(value: string)
    ensures forall i :: 0 <= i < |XmlEscape(value)| ==> !Markup(XmlEscape(value)[i])
  {
    if value == [] {
      assert XmlEscape([]) == [];
    } else {
      assert value == [value[0]] + value[1..];
      EscapeConcat([value[0]], value[1..]);
      EscapeOne(value[0]);
      hide XmlEscape;
      EscapedHasNoMarkup(value[1..]);
    }
  }

  /** Later passes leave the entities of earlier ones alone, because `&` goes first. */
  lemma EscapeOne(c: char)
    ensures XmlEscape([c]) == Entity(c)
  {
    hide Replace;
    var amp := if c == '&' then "&amp;" else [c];
    if c == '&' { ReplaceOne(c, "&amp;"); } else { ReplaceAbsent([c], '&', "&amp;"); }
    var lt := if c == '<' then "&lt;" else amp;
    if c == '<' { ReplaceOne(c, "&lt;"); } else { ReplaceAbsent(amp, '<', "&lt;"); }
    var gt := if c == '>' then "&gt;" else lt;
    if c == '>' { ReplaceOne(c, "&gt;"); } else { ReplaceAbsent(lt, '>', "&gt;"); }
    var quot := if c == '"' then "&quot;" else gt;
    if c == '"' { ReplaceOne(c, "&quot;"); } else { ReplaceAbsent(gt, '"', "&quot;"); }
    if c == '\'' { ReplaceOne(c, "&apos;"); } else { ReplaceAbsent(quot, '\'', "&apos;"); }
  }

  lemma EscapeConcat(a: string, b: string)
    ensures XmlEscape(a + b) == XmlEscape(a) + XmlEscape(b)
  {
    var amp, amp2 := Replace(a, '&', "&amp;"), Replace(b, '&', "&amp;");
    ReplaceConcat(a, b, '&', "&amp;");
    var lt, lt2 := Replace(amp, '<', "&lt;"), Replace(amp2, '<', "&lt;");
    ReplaceConcat(amp, amp2, '<', "&lt;");
    var gt, gt2 := Replace(lt, '>', "&gt;"), Replace(lt2, '>', "&gt;");
    ReplaceConcat(lt, lt2, '>', "&gt;");
    var quot, quot2 := Replace(gt, '"', "&quot;"), Replace(gt2, '"', "&quot;");
    ReplaceConcat(gt, gt2, '"', "&quot;");
    ReplaceConcat(quot, quot2, '\'', "&apos;");
  }

  lemma DecodeEntity(c: char, rest: string)
    ensures XmlDecode(Entity(c) + rest) == Prepend(c, XmlDecode(rest))
  {
    var s := Entity(c) + rest;
    assert s[|Entity(c)|..] == rest;
    assert s[0] == Entity(c)[0] && (|Entity(c)| > 1 ==> s[1] == Entity(c)[1]);
    assert |Entity(c)| > 2 ==> s[2] == Entity(c)[2];
  }

  /** Decoding undoes escaping, for every string. */
  lemma {:induction false} DecodeEscape(value: string)
    ensures XmlDecode(XmlEscape(value)) == Some(value)
  {
    if value != [] {
      var c, rest := value[0], value[1..];
      assert value == [c] + rest;
      EscapeConcat([c], rest);
      EscapeOne(c);
      DecodeEntity(c, XmlEscape(rest));
      DecodeEscape(rest);
    }
  }
}
