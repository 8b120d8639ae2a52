/** The markdown-to-HTML converter: a page header, then one pass over the lines of
    the markdown that turns headings, list items, mermaid blocks and paragraphs into
    HTML, then the closing tags. */
module Html {
  import opened Text
  import Tools

  // ---------------------------------------------------------------------------
  // Document frame

  const HeadOpen := "\n<!DOCTYPE html>\n<html>\n\n<head>\n    <title>"

  /** The rest of the head: metadata, the Bootstrap stylesheet and script, and the
      mermaid module that renders `<pre class="mermaid">` blocks. */
  const HeadClose :=
    "</title>\n"
    + "    \n"
    + "    <meta charset=\"UTF-8\">\n"
    + "    <meta name=\"viewport\" content=\"width=device-width, initial-scale=1\">\n"
    + "    <link href=\"https://cdn.jsdelivr.net/npm/bootstrap@5.0.2/dist/css/bootstrap.min.css\" rel=\"stylesheet\" integrity=\"sha384-EVSTQN3/azprG1Anm3QDgpJLIm9Nao0Yz1ztcQTwFspd3yD65VohhpuuCOmLASjC\" crossorigin=\"anonymous\">\n"
    + "    <script src=\"https://cdn.jsdelivr.net/npm/bootstrap@5.0.2/dist/js/bootstrap.bundle.min.js\" integrity=\"sha384-MrcW6ZMFYlzcLA8Nl+NtUVF0sA7MsXsP1UyJoMp4YLEuNSfAP+JcXn/tWtIaxVXM\" crossorigin=\"anonymous\"></script>\n"
    + "    <script type=\"module\">\n"
    + "        import mermaid from 'https://cdn.jsdelivr.net/npm/mermaid@11/dist/mermaid.esm.min.mjs';\n"
    + "        mermaid.initialize({ startOnLoad: true });\n"
    + "    </script>\n"
    + "</head>\n"

  const DocumentEnd := "</body>\n</html>"

  /** The doctype and head of a page with the given title. */
  function DocumentStart(documentTitle: string): string {
    HeadOpen + documentTitle + HeadClose
  }

  /** The title can be read back from the page start: different titles give
      different pages. */
  lemma TitleOfDocumentStart(a: string, b: string)
    requires DocumentStart(a) == DocumentStart(b)
    ensures a == b
  {
    MiddleOfFrame(HeadOpen, a, b, HeadClose);
  }

  /** Two strings framed by the same prefix and suffix are equal when the framed
      strings are. */
  lemma MiddleOfFrame(p: string, a: string, b: string, q: string)
    requires p + a + q == p + b + q
    ensures a == b
  {
    var s := p + a + q;
    assert |a| == |b|;
    assert s[|p|..|p| + |a|] == a;
    assert (p + b + q)[|p|..|p| + |b|] == b;
  }

  // ---------------------------------------------------------------------------
  // Paragraph text

  /** `&`, `<` and `>` replaced by their entities, `&` first. */
  function Escape(line: string): string {
    ReplaceAll(ReplaceAll(ReplaceAll(line, "&", "&amp;"), "<", "&lt;"), ">", "&gt;")
  }

  function EscapedChar(c: char): string {
    if c == '&' then "&amp;"
    else if c == '<' then "&lt;"
    else if c == '>' then "&gt;"
    else [c]
  }

  /** The escaping, character by character. */
  function EscapeEach(s: string): string
    decreases |s|
  {
    if s == [] then [] else EscapedChar(s[0]) + EscapeEach(s[1..])
  }

  /** The three entities read back as their characters. */
  function Unescape(s: string): string
    decreases |s|
  {
    if s == [] then []
    else if StartsWith(s, "&amp;") then "&" + Unescape(s[5..])
    else if StartsWith(s, "&lt;") then "<" + Unescape(s[4..])
    else if StartsWith(s, "&gt;") then ">" + Unescape(s[4..])
    else [s[0]] + Unescape(s[1..])
  }

  function EscapeSteps(s: string): string {
    SubstChar(SubstChar(SubstChar(s, '&', "&amp;"), '<', "&lt;"), '>', "&gt;")
  }

  /** The replacement chain escapes each character on its own: the entities the
      first replacement writes hold no `<` or `>` for the later ones to touch. */
  lemma EscapeIsEach(s: string)
    ensures Escape(s) == EscapeEach(s)
  {
    ReplaceAllIsSubst(s, '&', "&amp;");
    var t := SubstChar(s, '&', "&amp;");
    ReplaceAllIsSubst(t, '<', "&lt;");
    t := SubstChar(t, '<', "&lt;");
    ReplaceAllIsSubst(t, '>', "&gt;");
    EscapeStepsEach(s);
  }

  lemma {:induction false} EscapeStepsEach(s: string)
    ensures EscapeSteps(s) == EscapeEach(s)
    decreases |s|
  {
    if s != [] {
      EscapeStepsEach(s[1..]);
      assert s == [s[0]] + s[1..];
      EscapeStepsAppend([s[0]], s[1..]);
      EscapeStepsChar(s[0]);
    }
  }

  lemma EscapeStepsAppend(a: string, b: string)
    ensures EscapeSteps(a + b) == EscapeSteps(a) + EscapeSteps(b)
  {
    SubstCharAppend(a, b, '&', "&amp;");
    var a1, b1 := SubstChar(a, '&', "&amp;"), SubstChar(b, '&', "&amp;");
    SubstCharAppend(a1, b1, '<', "&lt;");
    SubstCharAppend(SubstChar(a1, '<', "&lt;"), SubstChar(b1, '<', "&lt;"), '>', "&gt;");
  }

  lemma EscapeStepsChar(c: char)
    ensures EscapeSteps([c]) == EscapedChar(c)
  {
    if c == '&' {
      EscapeStepsAmp();
    } else if c == '<' {
      EscapeStepsLt();
    } else {
      EscapeStepsRest(c);
    }
  }

  lemma EscapeStepsAmp()
    ensures EscapeSteps("&") == "&amp;"
  {
    Tools.SubstOne('&', '&', "&amp;");
    LaterStepsKeep("&amp;");
  }

  /** A text without `<` or `>` passes the last two replacements unchanged. */
  lemma LaterStepsKeep(e: string)
    requires '<' !in e && '>' !in e
    ensures SubstChar(SubstChar(e, '<', "&lt;"), '>', "&gt;") == e
  {
    Tools.SubstCharAbsent(e, '<', "&lt;");
    Tools.SubstCharAbsent(e, '>', "&gt;");
  }

  lemma EscapeStepsLt()
    ensures EscapeSteps("<") == "&lt;"
  {
    Tools.SubstOne('<', '&', "&amp;");
    Tools.SubstOne('<', '<', "&lt;");
    Tools.SubstCharAbsent("&lt;", '>', "&gt;");
  }

  /** A `>` or a plain character passes the first two replacements unchanged. */
  lemma EscapeStepsRest(c: char)
    requires c != '&' && c != '<'
    ensures EscapeSteps([c]) == EscapedChar(c)
  {
    Tools.SubstOne(c, '&', "&amp;");
    Tools.SubstOne(c, '<', "&lt;");
    Tools.SubstOne(c, '>', "&gt;");
  }

  lemma UnescapeChar(c: char, rest: string)
    ensures Unescape(EscapedChar(c) + rest) == [c] + Unescape(rest)
  {
    if c == '&' {
      UnescapeAmp(rest);
    } else if c == '<' {
      UnescapeLt(rest);
    } else if c == '>' {
      UnescapeGt(rest);
    } else {
      UnescapeOther(c, rest);
    }
  }

  lemma UnescapeAmp(rest: string)
    ensures Unescape("&amp;" + rest) == "&" + Unescape(rest)
  {
    var s := "&amp;" + rest;
    assert s[..5] == "&amp;" && s[5..] == rest;
  }

  lemma UnescapeLt(rest: string)
    ensures Unescape("&lt;" + rest) == "<" + Unescape(rest)
  {
    var s := "&lt;" + rest;
    assert s[1] == 'l';
    MismatchAt(s, "&amp;", 1);
    assert s[..4] == "&lt;" && s[4..] == rest;
  }

  lemma UnescapeGt(rest: string)
    ensures Unescape("&gt;" + rest) == ">" + Unescape(rest)
  {
    var s := "&gt;" + rest;
    assert s[1] == 'g';
    MismatchAt(s, "&amp;", 1);
    MismatchAt(s, "&lt;", 1);
    assert s[..4] == "&gt;" && s[4..] == rest;
  }

  lemma UnescapeOther(c: char, rest: string)
    requires c != '&'
    ensures Unescape([c] + rest) == [c] + Unescape(rest)
  {
    var s := [c] + rest;
    assert s[0] == c && s[1..] == rest;
  }

  /** Reading the entities back gives the original line. */
  lemma {:induction false} EscapeRoundTrip(s: string)
    ensures Unescape(Escape(s)) == s
  {
    EscapeIsEach(s);
    UnescapeEach(s);
  }

  lemma {:induction false} UnescapeEach(s: string)
    ensures Unescape(EscapeEach(s)) == s
    decreases |s|
  {
    if s != [] {
      UnescapeEach(s[1..]);
      UnescapeChar(s[0], EscapeEach(s[1..]));
      assert s == [s[0]] + s[1..];
    }
  }

  /** An escaped line holds no `<` or `>`: every one was turned into an entity. */
  lemma {:induction false} EscapeRemovesTags(s: string)
    ensures '<' !in Escape(s) && '>' !in Escape(s)
  {
    EscapeIsEach(s);
    EscapeEachFree(s);
  }

  lemma {:induction false} EscapeEachFree(s: string)
    ensures '<' !in EscapeEach(s) && '>' !in EscapeEach(s)
    decreases |s|
  {
    if s != [] {
      EscapeEachFree(s[1..]);
      var e := EscapedChar(s[0]);
      assert '<' !in e && '>' !in e;
    }
  }

  /** `re.sub(r'\[(.*?)\]\((.*?)\)', r'<a href="\2">\1</a>', line)`: at each position,
      a `[` opens a link when a `](` follows and a `)` follows that; the text runs to
      the first `](` and the target to the first `)` after it. */
  function SubLinks(s: string): string
    decreases |s|
  {
    if s == [] then []
    else
      var p := Find(s, "](", 1);
      var e := if p == -1 then -1 else Find(s, ")", p + 2);
      if s[0] == '[' && p != -1 && e != -1 then
        Anchor(s[p + 2..e], s[1..p]) + SubLinks(s[e + 1..])
      else [s[0]] + SubLinks(s[1..])
  }

  /** The link written for a target and its text. */
  function Anchor(url: string, text: string): string {
    "<a href=\"" + url + "\">" + text + "</a>"
  }

  /** `re.sub(r'\*\*(.*?)\*\*', r'<strong>\1</strong>', line)` */
  function SubBold(s: string): string
    decreases |s|
  {
    if s == [] then []
    else
      var q := Find(s, "**", 2);
      if StartsWith(s, "**") && q != -1 then "<strong>" + s[2..q] + "</strong>" + SubBold(s[q + 2..])
      else [s[0]] + SubBold(s[1..])
  }

  /** `re.sub(r'\*(.*?)\*', r'<em>\1</em>', line)` */
  function SubItalic(s: string): string
    decreases |s|
  {
    if s == [] then []
    else
      var q := Find(s, "*", 1);
      if s[0] == '*' && q != -1 then "<em>" + s[1..q] + "</em>" + SubItalic(s[q + 1..])
      else [s[0]] + SubItalic(s[1..])
  }

  const UncheckedBox := "<input type=\"checkbox\" disabled> "
  const CheckedBox := "<input type=\"checkbox\" checked disabled> "

  function Checkboxes(s: string): string {
    ReplaceAll(ReplaceAll(s, "[ ]", UncheckedBox), "[x]", CheckedBox)
  }

  /** The inside of a paragraph: escaped, then links, bold, italic and checkboxes. A
      blank line stays blank. */
  function Paragraph(line: string): string {
    if line == "" then "" else Checkboxes(SubItalic(SubBold(SubLinks(Escape(line)))))
  }

  /** Text without the markup characters passes every rewrite unchanged. */
  predicate PlainText(s: string) {
    forall c :: c in s ==> c != '&' && c != '<' && c != '>' && c != '[' && c != ']' && c != '*'
  }

  lemma {:induction false} SubLinksPlain(s: string)
    requires '[' !in s
    ensures SubLinks(s) == s
    decreases |s|
  {
    if s != [] {
      SubLinksPlain(s[1..]);
    }
  }

  lemma {:induction false} SubBoldPlain(s: string)
    requires '*' !in s
    ensures SubBold(s) == s
    decreases |s|
  {
    if s != [] {
      var rest := s[1..];
      assert '*' !in rest;
      assert !StartsWith(s, "**") by {
        if StartsWith(s, "**") {
          StartsWithHead(s, "**");
        }
      }
      assert SubBold(s) == [s[0]] + SubBold(rest);
      SubBoldPlain(rest);
      ConsOf(SubBold(s), s);
    }
  }

  lemma {:induction false} SubItalicPlain(s: string)
    requires '*' !in s
    ensures SubItalic(s) == s
    decreases |s|
  {
    if s != [] {
      SubItalicPlain(s[1..]);
    }
  }

  lemma EscapePlain(s: string)
    requires '&' !in s && '<' !in s && '>' !in s
    ensures Escape(s) == s
  {
    NotContainsFirstChar(s, "&");
    NoOccurrence(s, "&", "&amp;");
    NotContainsFirstChar(s, "<");
    NoOccurrence(s, "<", "&lt;");
    NotContainsFirstChar(s, ">");
    NoOccurrence(s, ">", "&gt;");
  }

  lemma CheckboxesPlain(s: string)
    requires '[' !in s
    ensures Checkboxes(s) == s
  {
    NotContainsFirstChar(s, "[ ]");
    NoOccurrence(s, "[ ]", UncheckedBox);
    NotContainsFirstChar(s, "[x]");
    NoOccurrence(s, "[x]", CheckedBox);
  }

  /** A line of plain text becomes its own paragraph text. */
  lemma PlainParagraph(line: string)
    requires PlainText(line)
    ensures Paragraph(line) == line
  {
    if line != "" {
      EscapePlain(line);
      SubLinksPlain(line);
      SubBoldPlain(line);
      SubItalicPlain(line);
      CheckboxesPlain(line);
    }
  }

  /** Escaping comes first and adds no markup: a line without link or emphasis
      markers becomes its escaping. */
  lemma EscapedParagraph(line: string)
    requires line != "" && '[' !in line && '*' !in line
    ensures Paragraph(line) == Escape(line)
  {
    EscapeIsEach(line);
    EscapeEachAdds(line);
    var e := Escape(line);
    assert '[' !in e && '*' !in e;
    SubLinksPlain(e);
    SubBoldPlain(e);
    SubItalicPlain(e);
    CheckboxesPlain(e);
  }

  /** Escaping introduces no character beyond those of the line and of the
      entities. */
  lemma {:induction false} EscapeEachAdds(s: string)
    ensures forall c :: c in EscapeEach(s) ==> c in s || c in "&amp;lt;gt"
    decreases |s|
  {
    if s != [] {
      EscapeEachAdds(s[1..]);
      var e := EscapedChar(s[0]);
      assert forall c :: c in e ==> c == s[0] || c in "&amp;lt;gt";
      assert EscapeEach(s) == e + EscapeEach(s[1..]);
      assert forall c :: c in s[1..] ==> c in s;
    }
  }

  /** `**x**` in a paragraph is set in bold. */
  lemma BoldParagraph(x: string)
    requires PlainText(x)
    ensures Paragraph("**" + x + "**") == "<strong>" + x + "</strong>"
  {
    var open, close := "<strong>", "</strong>";
    StrongTagsPlain();
    assert '*' !in x && '[' !in x;
    NotInJoin('*', open, x, close);
    NotInJoin('[', open, x, close);
    BoldRewrites(x);
    var b := open + x + close;
    SubItalicPlain(b);
    CheckboxesPlain(b);
  }

  lemma StrongTagsPlain()
    ensures '*' !in "<strong>" && '[' !in "<strong>" && '*' !in "</strong>" && '[' !in "</strong>"
  {
  }

  lemma NotInJoin(c: char, a: string, x: string, b: string)
    requires c !in a && c !in x && c !in b
    ensures c !in a + x + b
  {
  }

  lemma BoldRewrites(x: string)
    requires PlainText(x)
    ensures SubBold(SubLinks(Escape("**" + x + "**"))) == "<strong>" + x + "</strong>"
  {
    var line := "**" + x + "**";
    assert '&' !in line && '<' !in line && '>' !in line && '[' !in line by {
      assert forall c :: c in line ==> c == '*' || c in x;
    }
    EscapePlain(line);
    SubLinksPlain(line);
    assert '*' !in x by {
      assert forall c :: c in x ==> c != '*';
    }
    BoldOf(x);
  }

  /** The first occurrence of a one- or two-character marker after a run without
      its first character. */
  lemma FirstMarkerAfter(pre: string, x: string, marker: string, post: string)
    requires marker != [] && marker[0] !in x
    ensures Find(pre + x + marker + post, marker, |pre|) == |pre| + |x|
  {
    var s := pre + x + marker + post;
    var t := |pre| + |x|;
    assert s[t..t + |marker|] == marker;
    assert OccursAt(s, marker, t);
    forall k | |pre| <= k < t
      ensures !OccursAt(s, marker, k)
    {
      assert s[k] == x[k - |pre|];
      if k + |marker| <= |s| {
        assert s[k..k + |marker|][0] == s[k];
      }
    }
  }

  /** `**x**` becomes bold. */
  lemma BoldOf(x: string)
    requires '*' !in x
    ensures SubBold("**" + x + "**") == "<strong>" + x + "</strong>"
  {
    var s := "**" + x + "**";
    FirstMarkerAfter("**", x, "**", []);
    assert s == "**" + x + "**" + [];
    assert s[2..2 + |x|] == x && s[2 + |x| + 2..] == [];
    assert StartsWith(s, "**");
  }

  /** `*x*` becomes italic. */
  lemma ItalicOf(x: string)
    requires '*' !in x
    ensures SubItalic("*" + x + "*") == "<em>" + x + "</em>"
  {
    var s := "*" + x + "*";
    FirstMarkerAfter("*", x, "*", []);
    assert s == "*" + x + "*" + [];
    assert s[1..1 + |x|] == x && s[1 + |x| + 1..] == [];
  }

  /** `[text](url)` becomes a link to `url` showing `text`. */
  lemma LinkOf(text: string, url: string)
    requires ']' !in text && ')' !in url
    ensures SubLinks("[" + text + "](" + url + ")") == "<a href=\"" + url + "\">" + text + "</a>"
  {
    var s := "[" + text + "](" + url + ")";
    var p := 1 + |text|;
    var e := p + 2 + |url|;
    LinkMarkers(text, url);
    SubLinksAt(s, p, e);
    assert s[p + 2..e] == url && s[1..p] == text && s[e + 1..] == [];
    assert SubLinks([]) == [];
    AppendNil(Anchor(url, text));
  }

  /** In `[text](url)` the first `](` follows the text and the first `)` after it
      follows the target. */
  lemma LinkMarkers(text: string, url: string)
    requires ']' !in text && ')' !in url
    ensures Find("[" + text + "](" + url + ")", "](", 1) == 1 + |text|
    ensures Find("[" + text + "](" + url + ")", ")", 3 + |text|) == 3 + |text| + |url|
  {
    var s := "[" + text + "](" + url + ")";
    FirstMarkerAfter("[", text, "](", url + ")");
    Regroup("[" + text + "](", url, ")");
    FirstMarkerAfter("[" + text + "](", url, ")", []);
    AppendNil(s);
  }

  /** A link whose `](` is at `p` and whose `)` is at `e` is rewritten whole. */
  lemma SubLinksAt(s: string, p: int, e: int)
    requires s != [] && s[0] == '['
    requires Find(s, "](", 1) == p && p != -1 && Find(s, ")", p + 2) == e && e != -1
    ensures SubLinks(s) == Anchor(s[p + 2..e], s[1..p]) + SubLinks(s[e + 1..])
  {
    var e' := if p == -1 then -1 else Find(s, ")", p + 2);
    assert e' == e;
    assert SubLinks(s) == Anchor(s[p + 2..e'], s[1..p]) + SubLinks(s[e' + 1..]);
  }

  /** A `[ ]` task box at the start of a paragraph becomes a disabled checkbox. */
  lemma UncheckedParagraph(x: string)
    requires PlainText(x)
    ensures Paragraph("[ ] " + x) == UncheckedBox + " " + x
  {
    BoxPassesRewrites("[ ] ", x);
    CheckboxAtStart(x);
  }

  /** A `[x]` task box at the start of a paragraph becomes a checked, disabled
      checkbox. */
  lemma CheckedParagraph(x: string)
    requires PlainText(x)
    ensures Paragraph("[x] " + x) == CheckedBox + " " + x
  {
    BoxPassesRewrites("[x] ", x);
    CheckedAtStart(x);
  }

  /** A task box followed by plain text passes the escaping, link, bold and italic
      rewrites unchanged. */
  lemma BoxPassesRewrites(box: string, x: string)
    requires (box == "[ ] " || box == "[x] ") && PlainText(x)
    ensures SubItalic(SubBold(SubLinks(Escape(box + x)))) == box + x
  {
    var line := box + x;
    assert '&' !in line && '<' !in line && '>' !in line && '*' !in line by {
      assert forall c :: c in line ==> c in box || c in x;
    }
    EscapePlain(line);
    SubLinksBox(box, x);
    SubBoldPlain(line);
    SubItalicPlain(line);
  }

  lemma SubLinksBox(box: string, x: string)
    requires (box == "[ ] " || box == "[x] ") && PlainText(x)
    ensures SubLinks(box + x) == box + x
  {
    var s := box + x;
    NoCloseAfterBox(box, x);
    assert s[1..] == box[1..] + x;
    assert '[' !in s[1..] by {
      assert forall c :: c in s[1..] ==> c in box[1..] || c in x;
    }
    SubLinksPlain(s[1..]);
  }

  lemma NoCloseAfterBox(box: string, x: string)
    requires (box == "[ ] " || box == "[x] ") && PlainText(x)
    ensures Find(box + x, "](", 1) == -1
  {
    var s := box + x;
    assert s[1] != ']' && s[3] == ' ';
    forall k | 1 <= k
      ensures !OccursAt(s, "](", k)
    {
      if k + 2 <= |s| {
        assert s[k..k + 2][0] == s[k] && s[k..k + 2][1] == s[k + 1];
        if 4 <= k {
          assert s[k] == x[k - 4] && x[k - 4] in x;
        }
      }
    }
  }

  lemma CheckedAtStart(x: string)
    requires PlainText(x)
    ensures Checkboxes("[x] " + x) == CheckedBox + " " + x
  {
    var s := "[x] " + x;
    assert s[1] == 'x' && s[2] == ']' && s[3] == ' ';
    forall k | 0 <= k
      ensures !OccursAt(s, "[ ]", k)
    {
      if k + 3 <= |s| {
        assert s[k..k + 3][0] == s[k] && s[k..k + 3][1] == s[k + 1];
        if 4 <= k {
          assert s[k] == x[k - 4] && x[k - 4] in x;
        }
      }
    }
    NoOccurrence(s, "[ ]", UncheckedBox);
    CheckedReplaced(x);
  }

  lemma CheckedReplaced(x: string)
    requires PlainText(x)
    ensures ReplaceAll("[x] " + x, "[x]", CheckedBox) == CheckedBox + " " + x
  {
    var s := "[x] " + x;
    assert s[..3] == "[x]";
    assert Find(s, "[x]", 0) == 0;
    ReplaceAllAt(s, "[x]", CheckedBox, 0);
    assert s[3..] == " " + x;
    assert '[' !in " " + x by {
      assert forall c :: c in " " + x ==> c == ' ' || c in x;
    }
    NotContainsFirstChar(" " + x, "[x]");
    NoOccurrence(" " + x, "[x]", CheckedBox);
  }

  lemma CheckboxAtStart(x: string)
    requires PlainText(x)
    ensures Checkboxes("[ ] " + x) == UncheckedBox + " " + x
  {
    UncheckedAtStart(x);
    var t := UncheckedBox + " " + x;
    assert '[' !in t by {
      assert forall c :: c in t ==> c in UncheckedBox || c == ' ' || c in x;
    }
    NotContainsFirstChar(t, "[x]");
    NoOccurrence(t, "[x]", CheckedBox);
  }

  lemma UncheckedAtStart(x: string)
    requires PlainText(x)
    ensures ReplaceAll("[ ] " + x, "[ ]", UncheckedBox) == UncheckedBox + " " + x
  {
    var s := "[ ] " + x;
    assert s[..3] == "[ ]";
    assert Find(s, "[ ]", 0) == 0;
    ReplaceAllAt(s, "[ ]", UncheckedBox, 0);
    assert s[3..] == " " + x;
    assert '[' !in " " + x by {
      assert forall c :: c in " " + x ==> c == ' ' || c in x;
    }
    NotContainsFirstChar(" " + x, "[ ]");
    NoOccurrence(" " + x, "[ ]", UncheckedBox);
  }

  // ---------------------------------------------------------------------------
  // Lines

  /** The converter's two flags. */
  datatype Mode = Mode(inMermaid: bool, inCode: bool)

  const Start := Mode(false, false)

  /** The HTML one line adds and the flags after it. */
  datatype Step = Step(out: string, mode: Mode)

  /** What a stripped line is, by the first test it passes. */
  datatype Kind = H1(text: string) | H2(text: string) | H3(text: string) | Item(text: string)
                | MermaidOpen | Fence | Text

  function KindOf(line: string): Kind {
    if StartsWith(line, "# ") then H1(line[2..])
    else if StartsWith(line, "## ") then H2(line[3..])
    else if StartsWith(line, "### ") then H3(line[4..])
    else if StartsWith(line, "- ") then Item(line[2..])
    else if StartsWith(line, "```mermaid") then MermaidOpen
    else if line == "```" then Fence
    else Text
  }

  /** One stripped line: headings and list items whatever the mode; then the fence
      lines; then verbatim text inside a block, or a paragraph outside. */
  function Emit(mode: Mode, line: string): Step {
    match KindOf(line)
    case H1(text) => Step("<h1>" + text + "</h1>\n", mode)
    case H2(text) => Step("<h2>" + text + "</h2>\n", mode)
    case H3(text) => Step("<h3>" + text + "</h3>\n", mode)
    case Item(text) => Step("<li>" + text + "</li>\n", mode)
    case MermaidOpen => Step("<pre class=\"mermaid\">\n", mode.(inMermaid := true))
    case Fence =>
      if mode.inCode then Step("</code>\n", mode.(inCode := false))
      else if mode.inMermaid then Step("</pre>\n", mode.(inMermaid := false))
      else Step("", mode)
    case Text =>
      if mode.inCode || mode.inMermaid then Step(line + "\n", mode)
      else Step("<p>" + Paragraph(line) + "</p>\n", mode)
  }

  /** Stripped lines converted one after another from a mode. */
  function RenderFrom(mode: Mode, lines: seq<string>): Step
    decreases |lines|
  {
    if lines == [] then Step("", mode)
    else
      var first := Emit(mode, lines[0]);
      var rest := RenderFrom(first.mode, lines[1..]);
      Step(first.out + rest.out, rest.mode)
  }

  /** The whole page for a markdown text: each line is stripped of surrounding
      whitespace before it is converted. */
  function MarkdownToHtml(markdownText: string, documentTitle: string): string {
    DocumentStart(documentTitle) + RenderFrom(Start, StripEach(SplitLines(markdownText))).out + DocumentEnd
  }

  /** The page opens with the document start for its title and closes with the
      closing tags, whatever the markdown. */
  lemma PageFrame(markdownText: string, documentTitle: string)
    ensures StartsWith(MarkdownToHtml(markdownText, documentTitle), DocumentStart(documentTitle))
    ensures EndsWith(MarkdownToHtml(markdownText, documentTitle), DocumentEnd)
  {
    FramedBy(DocumentStart(documentTitle), RenderFrom(Start, StripEach(SplitLines(markdownText))).out, DocumentEnd);
  }

  /** Converting two runs of lines is converting the first, then the second from
      the mode the first leaves. */
  lemma {:induction false} RenderAppend(mode: Mode, a: seq<string>, b: seq<string>)
    ensures RenderFrom(mode, a + b).out == RenderFrom(mode, a).out + RenderFrom(RenderFrom(mode, a).mode, b).out
    ensures RenderFrom(mode, a + b).mode == RenderFrom(RenderFrom(mode, a).mode, b).mode
    decreases |a|
  {
    if a == [] {
      assert a + b == b;
    } else {
      assert (a + b)[0] == a[0] && (a + b)[1..] == a[1..] + b;
      var first := Emit(mode, a[0]);
      RenderAppend(first.mode, a[1..], b);
      var x, y := RenderFrom(first.mode, a[1..]), RenderFrom(first.mode, a[1..] + b);
      assert y.out == x.out + RenderFrom(x.mode, b).out;
      assert first.out + y.out == (first.out + x.out) + RenderFrom(x.mode, b).out;
    }
  }

  /** The code-block flag is never set: no line opens a code block. */
  lemma {:induction false} CodeBlockNeverOpens(mode: Mode, lines: seq<string>)
    requires !mode.inCode
    ensures !RenderFrom(mode, lines).mode.inCode
    decreases |lines|
  {
    if lines != [] {
      CodeBlockNeverOpens(Emit(mode, lines[0]).mode, lines[1..]);
    }
  }

  lemma KindOfH2(text: string)
    ensures KindOf("## " + text) == H2(text)
  {
    var line := "## " + text;
    assert line[1] == '#' && line[..3] == "## ";
  }

  lemma KindOfH3(text: string)
    ensures KindOf("### " + text) == H3(text)
  {
    var line := "### " + text;
    assert line[1] == '#' && line[2] == '#' && line[..4] == "### ";
  }

  lemma KindOfItem(text: string)
    ensures KindOf("- " + text) == Item(text)
  {
    var line := "- " + text;
    assert line[0] == '-' && line[..2] == "- ";
  }

  /** Headings and list items are converted whatever the mode, inside a mermaid
      block too. */
  lemma HeadingLine(mode: Mode, text: string)
    ensures Emit(mode, "# " + text) == Step("<h1>" + text + "</h1>\n", mode)
  {
    assert ("# " + text)[..2] == "# ";
  }

  lemma SubheadingLine(mode: Mode, text: string)
    ensures Emit(mode, "## " + text) == Step("<h2>" + text + "</h2>\n", mode)
  {
    KindOfH2(text);
  }

  lemma ThirdLevelLine(mode: Mode, text: string)
    ensures Emit(mode, "### " + text) == Step("<h3>" + text + "</h3>\n", mode)
  {
    KindOfH3(text);
  }

  lemma ItemLine(mode: Mode, text: string)
    ensures Emit(mode, "- " + text) == Step("<li>" + text + "</li>\n", mode)
  {
    KindOfItem(text);
  }

  /** A `- [ ]` task item is a list item that keeps its box as text: the checkbox
      rewrite applies to paragraphs only. */
  lemma TaskItemLine(mode: Mode, text: string)
    ensures Emit(mode, "- [ ] " + text) == Step("<li>[ ] " + text + "</li>\n", mode)
  {
    assert "- [ ] " + text == "- " + ("[ ] " + text);
    ItemLine(mode, "[ ] " + text);
  }

  lemma KindOfFences()
    ensures KindOf("```") == Fence && KindOf("```mermaid") == MermaidOpen
  {
    var f, m := "```", "```mermaid";
    assert f[..2] != "# " && f[..3] != "## " && f[..2] != "- " by { assert f[0] == '`'; }
    assert |f| < 4 && |f| < |m|;
    assert m[..2] != "# " && m[..3] != "## " && m[..4] != "### " && m[..2] != "- " by { assert m[0] == '`'; }
    assert m[..|m|] == m;
  }

  /** Outside blocks, a blank line gives an empty paragraph. */
  lemma BlankLine(mode: Mode)
    requires !mode.inMermaid && !mode.inCode
    ensures Emit(mode, "") == Step("<p></p>\n", mode)
  {
  }

  /** A bare fence outside any block writes nothing; inside a mermaid block it
      closes the block. */
  lemma BareFence(mode: Mode)
    requires !mode.inCode
    ensures Emit(mode, "```") == Step(if mode.inMermaid then "</pre>\n" else "", mode.(inMermaid := false))
  {
    KindOfFences();
  }

  /** Outside blocks, a line of plain text becomes a paragraph of itself. */
  lemma PlainLine(mode: Mode, line: string)
    requires !mode.inMermaid && !mode.inCode && KindOf(line) == Text && PlainText(line)
    ensures Emit(mode, line) == Step("<p>" + line + "</p>\n", mode)
  {
    PlainParagraph(line);
  }

  /** Inside a mermaid block, text lines are written as they are, unescaped. */
  lemma {:induction false} MermaidBody(body: seq<string>)
    requires forall i :: 0 <= i < |body| ==> KindOf(body[i]) == Text
    ensures RenderFrom(Mode(true, false), body) == Step(Unlines(body), Mode(true, false))
    decreases |body|
  {
    if body != [] {
      MermaidBody(body[1..]);
    }
  }

  /** A mermaid block outside other blocks becomes a `<pre class="mermaid">` element
      holding its text lines verbatim, and the mode returns to normal after it. */
  lemma MermaidBlock(body: seq<string>)
    requires forall i :: 0 <= i < |body| ==> KindOf(body[i]) == Text
    ensures RenderFrom(Start, ["```mermaid"] + body + ["```"])
         == Step("<pre class=\"mermaid\">\n" + Unlines(body) + "</pre>\n", Start)
  {
    KindOfFences();
    var inBlock := Mode(true, false);
    var rest := body + ["```"];
    Regroup(["```mermaid"], body, ["```"]);
    var lines := ["```mermaid"] + rest;
    assert lines[0] == "```mermaid" && lines[1..] == rest;
    var open := Emit(Start, "```mermaid");
    assert open == Step("<pre class=\"mermaid\">\n", inBlock);
    MermaidBody(body);
    var closing := "</pre>\n";
    ClosingFence();
    RenderAppend(inBlock, body, ["```"]);
    var after := RenderFrom(inBlock, rest);
    assert after.out == Unlines(body) + closing && after.mode == Start;
    assert RenderFrom(Start, lines) == Step(open.out + after.out, Start);
    Regroup(open.out, Unlines(body), closing);
  }

  /** A fence inside a mermaid block closes it. */
  lemma ClosingFence()
    ensures RenderFrom(Mode(true, false), ["```"]) == Step("</pre>\n", Start)
  {
    var closing := "</pre>\n";
    BareFence(Mode(true, false));
    assert ["```"][1..] == [];
    assert closing + [] == closing;
  }

  // ---------------------------------------------------------------------------
  // The converter

  /** Converts markdown text into a page: the page start, each line stripped and
      converted in turn, then the closing tags. */
  method ConvertMarkdownToHtml(markdownText: string, documentTitle: string) returns (html: string)
    ensures html == MarkdownToHtml(markdownText, documentTitle)
  {
    html := DocumentStart(documentTitle);
    var lines := StripEach(SplitLines(markdownText));
    html := AppendLines(html, lines);
    html := html + DocumentEnd;
  }

  /** The converter's loop over stripped lines: the flags carried from one line to
      the next, the HTML appended to what was written before. */
  method AppendLines(written: string, lines: seq<string>) returns (html: string)
    ensures html == written + RenderFrom(Start, lines).out
  {
    html := written;
    var inMermaidBlock := false;
    var inCodeBlock := false;
    for i := 0 to |lines|
      invariant html == written + RenderFrom(Start, lines[..i]).out
      invariant Mode(inMermaidBlock, inCodeBlock) == RenderFrom(Start, lines[..i]).mode
    {
      ghost var before := RenderFrom(Start, lines[..i]).out;
      var out;
      out, inMermaidBlock, inCodeBlock := ConvertLine(lines[i], inMermaidBlock, inCodeBlock);
      RenderNext(lines, i, Step(out, Mode(inMermaidBlock, inCodeBlock)));
      Regroup(written, before, out);
      html := html + out;
    }
    assert lines[..|lines|] == lines;
  }

  lemma RenderNext(lines: seq<string>, i: nat, step: Step)
    requires i < |lines| && step == Emit(RenderFrom(Start, lines[..i]).mode, lines[i])
    ensures RenderFrom(Start, lines[..i + 1]) == Step(RenderFrom(Start, lines[..i]).out + step.out, step.mode)
  {
    assert lines[..i + 1] == lines[..i] + [lines[i]];
    RenderAppend(Start, lines[..i], [lines[i]]);
  }

  /** One pass of the converter's loop, on a stripped line. */
  method ConvertLine(line: string, inMermaidBlock: bool, inCodeBlock: bool)
    returns (out: string, inMermaid': bool, inCode': bool)
    ensures Step(out, Mode(inMermaid', inCode')) == Emit(Mode(inMermaidBlock, inCodeBlock), line)
  {
    out, inMermaid', inCode' := "", inMermaidBlock, inCodeBlock;
    if StartsWith(line, "# ") {
      out := "<h1>" + line[2..] + "</h1>\n";
    } else if StartsWith(line, "## ") {
      out := "<h2>" + line[3..] + "</h2>\n";
    } else if StartsWith(line, "### ") {
      out := "<h3>" + line[4..] + "</h3>\n";
    } else if StartsWith(line, "- ") {
      out := "<li>" + line[2..] + "</li>\n";
    } else if StartsWith(line, "```mermaid") {
      out := "<pre class=\"mermaid\">\n";
      inMermaid' := true;
    } else if line == "```" {
      if inCodeBlock {
        out := "</code>\n";
        inCode' := false;
      } else if inMermaidBlock {
        out := "</pre>\n";
        inMermaid' := false;
      }
    } else if inCodeBlock {
      out := line + "\n";
    } else if inMermaidBlock {
      out := line + "\n";
    } else {
      out := "<p>" + Paragraph(line) + "</p>\n";
    }
  }
}
