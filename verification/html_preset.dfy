/**
 The launcher preset (`html_preset.generate`): an HTML document the game's
 launcher imports as a mod list. It is written piece by piece: the head with the
 preset's metadata and stylesheet, the heading that opens the list of required
 mods, one table row per mod linking to its workshop page, and the closing part.

 Names and ids are inserted verbatim, without HTML escaping. A parser for the
 generated layout is the inverse of `Generate`: it recovers the preset exactly
 when the inserted text cannot be mistaken for the markup around it.
 */
module HtmlPreset {
  import opened Wrappers
  import opened Text
  import opened Seqs
  import Mods

  /** The preset type written into the metadata and the heading. */
  const PresetType: string := "Modpack"

  const XmlDeclaration: string := "<?xml version=\"1.0\" encoding=\"utf-8\"?>\n"

  const DocumentEnd: string := "</html>\n"

  /** The address of an item's workshop page, without the id. */
  const UrlPrefix: string := "https://steamcommunity.com/sharedfiles/filedetails/?id="

  // ---------------------------------------------------------------------------
  // The fixed text of the document

  /** The metadata tag giving the preset type. */
  const TypeMeta: string := "<meta name=\"arma:Type\" content=\"" + PresetType + "\" />"

  /** The metadata tag giving the preset name, up to the name. */
  const PresetNameOpen: string := "<meta name=\"arma:PresetName\" content=\""

  /** The page heading, up to the preset name. */
  const HeadingOpen: string := "<h1>Arma 3  - " + PresetType + " <strong>"

  /** The document up to the preset name in the `arma:PresetName` metadata. */
  const NamePrefix: string :=
    XmlDeclaration
    + "<html>\n\n"
    + "<!--Created using a3update.py: https://gist.github.com/Freddo3000/a5cd0494f649db75e43611122c9c3f15-->\n"
    + "<head>\n"
    + TypeMeta + "\n"
    + PresetNameOpen

  const NameToStyle: string :=
    "\" />\n"
    + "<meta name=\"generator\" content=\"a3update.py\">\n"
    + " <title>Arma 3</title>\n"
    + "<link href=\"https://fonts.googleapis.com/css?family=Roboto\" rel=\"stylesheet\" type=\"text/css\" />\n"
    + "<style>\n"

  const StyleSheet: string :=
    "body {\n"
    + "margin: 0;\n"
    + "padding: 0;\n"
    + "color: #fff;\n"
    + "background: #000;\n"
    + "}\n"
    + "body, th, td {\n"
    + "font: 95%/1.3 Roboto, Segoe UI, Tahoma, Arial, Helvetica, sans-serif;\n"
    + "}\n"
    + "td {\n"
    + "padding: 3px 30px 3px 0;\n"
    + "}\n"
    + "h1 {\n"
    + "padding: 20px 20px 0 20px;\n"
    + "color: white;\n"
    + "font-weight: 200;\n"
    + "font-family: segoe ui;\n"
    + "font-size: 3em;\n"
    + "margin: 0;\n"
    + "}\n"
    + "h2 {"
    + "color: white;"
    + "padding: 20px 20px 0 20px;"
    + "margin: 0;"
    + "}"
    + "em {\n"
    + "font-variant: italic;\n"
    + "color:silver;\n"
    + "}\n"
    + ".before-list {\n"
    + "padding: 5px 20px 10px 20px;\n"
    + "}\n"
    + ".mod-list {\n"
    + "background: #282828;\n"
    + "padding: 20px;\n"
    + "}\n"
    + ".optional-list {\n"
    + "background: #222222;\n"
    + "padding: 20px;\n"
    + "}\n"
    + ".dlc-list {\n"
    + "background: #222222;\n"
    + "padding: 20px;\n"
    + "}\n"
    + ".footer {\n"
    + "padding: 20px;\n"
    + "color:gray;\n"
    + "}\n"
    + ".whups {\n"
    + "color:gray;\n"
    + "}\n"
    + "a {\n"
    + "color: #D18F21;\n"
    + "text-decoration: underline;\n"
    + "}\n"
    + "a:hover {\n"
    + "color:#F1AF41;\n"
    + "text-decoration: none;\n"
    + "}\n"
    + ".from-steam {\n"
    + "color: #449EBD;\n"
    + "}\n"
    + ".from-local {\n"
    + "color: gray;\n"
    + "}\n"

  const HeadingPrefix: string :=
    "</style>\n"
    + "</head>\n"
    + "<body>\n"
    + HeadingOpen

  const HeadingToTable: string :=
    "</strong></h1>\n"
    + "<p class=\"before-list\">\n"
    + "<em>Drag this file or link to it to Arma 3 Launcher or open it Mods / Preset / Import.</em>\n"
    + "</p>\n"
    + "<h2 class=\"list-heading\">Required Mods</h2>"
    + "<div class=\"mod-list\">\n"
    + "<table>\n"

  const RowOpen: string :=
    "<tr data-type=\"ModContainer\">\n"
    + "<td data-type=\"DisplayName\">"

  const NameToHref: string :=
    "</td>\n"
    + "<td>\n"
    + "<span class=\"from-steam\">Steam</span>\n"
    + "</td>\n"
    + "<td>\n"
    + "<a href=\""

  const HrefToText: string := "\" data-type=\"Link\">"

  const RowClose: string :=
    "</a>\n"
    + "</td>\n"
    + "</tr>\n"

  const Closing: string :=
    "</table>\n"
    + "</div>\n"
    + "<div class=\"footer\">\n"
    + "<span>Created using a3update.py by Freddo3000.</span>\n"
    + "</div>\n"
    + "</body>\n"
    + DocumentEnd

  /** The fixed markup of the preset document, between the places where text is inserted. */
  datatype Template = Template(
    namePrefix: string,
    nameToStyle: string,
    styleSheet: string,
    headingPrefix: string,
    headingToTable: string,
    rowOpen: string,
    nameToHref: string,
    hrefToText: string,
    rowClose: string,
    urlPrefix: string,
    closing: string)

  /** The markup `generate` writes. */
  const Markup: Template :=
    Template(NamePrefix, NameToStyle, StyleSheet, HeadingPrefix, HeadingToTable,
             RowOpen, NameToHref, HrefToText, RowClose, UrlPrefix, Closing)

  /**
   A template whose inserted fields can be read back: each field is followed by
   a character it cannot contain, and the closing part does not look like
   another row.
   */
  predicate Delimited(t: Template) {
    && |t.nameToStyle| > 0 && t.nameToStyle[0] == '"'
    && |t.nameToHref| > 0 && t.nameToHref[0] == '<'
    && |t.hrefToText| > 0 && t.hrefToText[0] == '"'
    && |t.rowOpen| > 0 && !StartsWith(t.closing, t.rowOpen)
  }

  /** The parts of the markup around the inserted fields delimit them, whatever the rest of the markup is. */
  lemma DelimitingParts(namePrefix: string, styleSheet: string, headingPrefix: string, headingToTable: string)
    ensures Delimited(Template(namePrefix, NameToStyle, styleSheet, headingPrefix, headingToTable,
                               RowOpen, NameToHref, HrefToText, RowClose, UrlPrefix, Closing))
  {
    assert |NameToStyle| > 0 && NameToStyle[0] == '"';
    assert |NameToHref| > 0 && NameToHref[0] == '<';
    assert |HrefToText| > 0 && HrefToText[0] == '"';
    assert Closing[1] != RowOpen[1];
  }

  lemma MarkupDelimited()
    ensures Delimited(Markup)
  {
    DelimitingParts(NamePrefix, StyleSheet, HeadingPrefix, HeadingToTable);
  }

  lemma MarkupFrame()
    ensures StartsWith(Markup.namePrefix, XmlDeclaration) && EndsWith(Markup.closing, DocumentEnd)
  {
  }

  // ---------------------------------------------------------------------------
  // Generation

  /** What the preset lists of a mod: its display name and workshop id. */
  datatype ListedMod = ListedMod(name: string, publishedFileId: Mods.FileId)

  datatype Preset = Preset(name: string, mods: seq<ListedMod>)

  function Listed(mods: seq<Mods.ModDescriptor>): (r: seq<ListedMod>)
    ensures |r| == |mods|
  {
    seq(|mods|, i requires 0 <= i < |mods| => ListedMod(mods[i].name, mods[i].publishedFileId))
  }

  function Url(t: Template, id: Mods.FileId): string {
    t.urlPrefix + id
  }

  /** The first write: XML declaration, metadata and stylesheet. */
  function Head(t: Template, name: string): string {
    t.namePrefix + name + t.nameToStyle + t.styleSheet
  }

  /** The second write: the heading naming the preset, up to the opening of the table. */
  function Heading(t: Template, name: string): string {
    t.headingPrefix + name + t.headingToTable
  }

  /** The end of a row after the link's address: the link text, which is the address again. */
  function RowTail(t: Template, url: string): string {
    t.hrefToText + url + t.rowClose
  }

  /** One table row: the mod's name, then a link to its workshop page. */
  function Row(t: Template, m: ListedMod): string {
    t.rowOpen + m.name + t.nameToHref + Url(t, m.publishedFileId) + RowTail(t, Url(t, m.publishedFileId))
  }

  function Rows(t: Template, ms: seq<ListedMod>): string {
    if ms == [] then [] else Row(t, ms[0]) + Rows(t, ms[1..])
  }

  function Document(t: Template, p: Preset): string {
    Head(t, p.name) + Heading(t, p.name) + Rows(t, p.mods) + t.closing
  }

  /** `generate(mods, config)`: the text written to the preset file. */
  function Generate(name: string, mods: seq<Mods.ModDescriptor>): (r: string)
    ensures StartsWith(r, XmlDeclaration) && EndsWith(r, DocumentEnd)
  {
    var p := Preset(name, Listed(mods));
    var r := Document(Markup, p);
    MarkupFrame();
    DocumentFrame(Markup, p);
    StartsWithTrans(r, Markup.namePrefix, XmlDeclaration);
    EndsWithTrans(r, Markup.closing, DocumentEnd);
    r
  }

  /** A document opens with its template's opening text and ends with its closing text. */
  lemma DocumentFrame(t: Template, p: Preset)
    ensures StartsWith(Document(t, p), t.namePrefix) && EndsWith(Document(t, p), t.closing)
  {
    var name := p.name;
    var np := t.namePrefix;
    StartsWithAppend(np, name, np);
    StartsWithAppend(np + name, t.nameToStyle, np);
    StartsWithAppend(np + name + t.nameToStyle, t.styleSheet, np);
    StartsWithAppend(Head(t, name), Heading(t, name), np);
    StartsWithAppend(Head(t, name) + Heading(t, name), Rows(t, p.mods), np);
    StartsWithAppend(Head(t, name) + Heading(t, name) + Rows(t, p.mods), t.closing, np);
    EndsWithAppend(Head(t, name) + Heading(t, name) + Rows(t, p.mods), t.closing, t.closing);
  }

  /** Each mod contributes its own row, in list order. */
  lemma {:induction false} RowsAppend(t: Template, a: seq<ListedMod>, b: seq<ListedMod>)
    ensures Rows(t, a + b) == Rows(t, a) + Rows(t, b)
  {
    if a == [] {
      assert a + b == b;
    } else {
      assert (a + b)[0] == a[0] && (a + b)[1..] == a[1..] + b;
      RowsAppend(t, a[1..], b);
      AppendAssoc(Row(t, a[0]), Rows(t, a[1..]), Rows(t, b));
    }
  }

  // ---------------------------------------------------------------------------
  // Where the inserted text lands

  /** The preset name is written into the head, between the fixed text around it there. */
  lemma NameWritten(t: Template, p: Preset, before: string, after: string)
    requires EndsWith(t.namePrefix, before) && StartsWith(t.nameToStyle, after)
    ensures Infix(Document(t, p), before + p.name + after)
  {
    var w := before + p.name + after;
    InfixAround(t.namePrefix, before, p.name, after, t.nameToStyle);
    InfixRight(t.namePrefix + p.name + t.nameToStyle, t.styleSheet, w);
    InfixRight(Head(t, p.name), Heading(t, p.name), w);
    InfixRight(Head(t, p.name) + Heading(t, p.name), Rows(t, p.mods), w);
    InfixRight(Head(t, p.name) + Heading(t, p.name) + Rows(t, p.mods), t.closing, w);
  }

  /** The preset name is written into the heading, between the fixed text around it there. */
  lemma HeadingNameWritten(t: Template, p: Preset, before: string, after: string)
    requires EndsWith(t.headingPrefix, before) && StartsWith(t.headingToTable, after)
    ensures Infix(Document(t, p), before + p.name + after)
  {
    var w := before + p.name + after;
    InfixAround(t.headingPrefix, before, p.name, after, t.headingToTable);
    InfixLeft(Head(t, p.name), Heading(t, p.name), w);
    InfixRight(Head(t, p.name) + Heading(t, p.name), Rows(t, p.mods), w);
    InfixRight(Head(t, p.name) + Heading(t, p.name) + Rows(t, p.mods), t.closing, w);
  }

  /** Fixed text of the head is in every document, whatever the preset. */
  lemma FixedTextWritten(t: Template, p: Preset, sub: string)
    requires Infix(t.namePrefix, sub)
    ensures Infix(Document(t, p), sub)
  {
    InfixRight(t.namePrefix, p.name, sub);
    InfixRight(t.namePrefix + p.name, t.nameToStyle, sub);
    InfixRight(t.namePrefix + p.name + t.nameToStyle, t.styleSheet, sub);
    InfixRight(Head(t, p.name), Heading(t, p.name), sub);
    InfixRight(Head(t, p.name) + Heading(t, p.name), Rows(t, p.mods), sub);
    InfixRight(Head(t, p.name) + Heading(t, p.name) + Rows(t, p.mods), t.closing, sub);
  }

  /** A row shows the mod's name in its first cell. */
  lemma RowNameWritten(t: Template, m: ListedMod, open: string, close: string)
    requires EndsWith(t.rowOpen, open) && StartsWith(t.nameToHref, close)
    ensures Infix(Row(t, m), open + m.name + close)
  {
    var u := Url(t, m.publishedFileId);
    var w := open + m.name + close;
    InfixAround(t.rowOpen, open, m.name, close, t.nameToHref);
    InfixRight(t.rowOpen + m.name + t.nameToHref, u, w);
    InfixRight(t.rowOpen + m.name + t.nameToHref + u, RowTail(t, u), w);
  }

  /** A row links to the mod's workshop address. */
  lemma RowTargetWritten(t: Template, m: ListedMod, open: string, close: string)
    requires EndsWith(t.nameToHref, open) && StartsWith(t.hrefToText, close)
    ensures Infix(Row(t, m), open + Url(t, m.publishedFileId) + close)
  {
    var u := Url(t, m.publishedFileId);
    EndsWithAppend(t.rowOpen + m.name, t.nameToHref, open);
    StartsWithAppend(t.hrefToText, u, close);
    StartsWithAppend(t.hrefToText + u, t.rowClose, close);
    InfixAround(t.rowOpen + m.name + t.nameToHref, open, u, close, RowTail(t, u));
  }

  /** A row's link text is the mod's workshop address again. */
  lemma RowTextWritten(t: Template, m: ListedMod, open: string, close: string)
    requires EndsWith(t.hrefToText, open) && StartsWith(t.rowClose, close)
    ensures Infix(Row(t, m), open + Url(t, m.publishedFileId) + close)
  {
    var u := Url(t, m.publishedFileId);
    var before := t.rowOpen + m.name + t.nameToHref + u + t.hrefToText;
    EndsWithAppend(t.rowOpen + m.name + t.nameToHref + u, t.hrefToText, open);
    InfixAround(before, open, u, close, t.rowClose);
    assert Row(t, m) == before + u + t.rowClose;
  }

  /** Rows placed between a top part and a bottom part. */
  function Framed(top: string, rows: string, bottom: string): string {
    top + rows + bottom
  }

  /**
   The rows are inserted into the document of the preset without mods, at a place
   fixed by the name alone: after the heading, which ends in `open`, and before the
   closing text, which starts with `close`. The same top and bottom serve every
   list of mods.
   */
  lemma DocumentAroundRows(t: Template, name: string, open: string, close: string)
    requires EndsWith(t.headingToTable, open) && StartsWith(t.closing, close)
    ensures exists top, bottom ::
      && Document(t, Preset(name, [])) == Framed(top, [], bottom)
      && EndsWith(top, open) && StartsWith(bottom, close)
      && forall ms :: Document(t, Preset(name, ms)) == Framed(top, Rows(t, ms), bottom)
  {
    var top := Head(t, name) + Heading(t, name);
    assert Document(t, Preset(name, [])) == top + t.closing;
    EndsWithAppend(t.headingPrefix + name, t.headingToTable, open);
    EndsWithAppend(Head(t, name), Heading(t, name), open);
    assert Document(t, Preset(name, [])) == Framed(top, [], t.closing);
    assert forall ms :: Document(t, Preset(name, ms)) == Framed(top, Rows(t, ms), t.closing);
  }

  /** The head has a place for the preset's name in its metadata. */
  lemma HeadMarkers()
    ensures EndsWith(Markup.namePrefix, PresetNameOpen) && StartsWith(Markup.nameToStyle, "\" />")
  {
  }

  /** The head states the preset type. */
  lemma TypeMarker()
    ensures Infix(Markup.namePrefix, TypeMeta)
  {
    var before := XmlDeclaration + "<html>\n\n"
      + "<!--Created using a3update.py: https://gist.github.com/Freddo3000/a5cd0494f649db75e43611122c9c3f15-->\n"
      + "<head>\n";
    var after := "\n" + PresetNameOpen;
    assert NamePrefix == before + TypeMeta + after;
    assert (before + TypeMeta + after)[|before|..][..|TypeMeta|] == TypeMeta;
  }

  /** The heading has a place for the preset's name and ends by opening the table, which the closing text closes. */
  lemma HeadingMarkers()
    ensures EndsWith(Markup.headingPrefix, HeadingOpen) && StartsWith(Markup.headingToTable, "</strong></h1>")
    ensures EndsWith(Markup.headingToTable, "<table>\n") && StartsWith(Markup.closing, "</table>\n")
  {
  }

  /** The generated preset states its type, and its name both in the metadata and in the heading. */
  lemma GenerateNamesPreset(name: string, mods: seq<Mods.ModDescriptor>)
    ensures var g := Generate(name, mods);
      && Infix(g, TypeMeta)
      && Infix(g, PresetNameOpen + name + "\" />")
      && Infix(g, HeadingOpen + name + "</strong></h1>")
  {
    var p := Preset(name, Listed(mods));
    HeadMarkers();
    HeadingMarkers();
    TypeMarker();
    FixedTextWritten(Markup, p, TypeMeta);
    NameWritten(Markup, p, PresetNameOpen, "\" />");
    HeadingNameWritten(Markup, p, HeadingOpen, "</strong></h1>");
  }

  /** Each generated row shows the mod's name as display name and its workshop address as link target and text. */
  lemma RowCells(m: ListedMod)
    ensures var u := UrlPrefix + m.publishedFileId;
      && Infix(Row(Markup, m), "<td data-type=\"DisplayName\">" + m.name + "</td>")
      && Infix(Row(Markup, m), "<a href=\"" + u + "\"")
      && Infix(Row(Markup, m), "\">" + u + "</a>")
  {
    RowNameWritten(Markup, m, "<td data-type=\"DisplayName\">", "</td>");
    RowTargetWritten(Markup, m, "<a href=\"", "\"");
    RowTextWritten(Markup, m, "\">", "</a>");
  }

  /**
   The header and footer depend on the preset name only: the preset for any mods is
   the preset without mods, with the rows inserted after the table opens. Without
   mods the table is opened and closed at once. The top and bottom returned are
   computed from the name alone and serve every list of mods.
   */
  lemma GenerateAroundRows(name: string) returns (top: string, bottom: string)
    ensures Generate(name, []) == Framed(top, [], bottom)
    ensures EndsWith(top, "<table>\n") && StartsWith(bottom, "</table>\n")
    ensures forall mods :: Generate(name, mods) == Framed(top, Rows(Markup, Listed(mods)), bottom)
  {
    top, bottom := Head(Markup, name) + Heading(Markup, name), Markup.closing;
    HeadingMarkers();
    TopEnds(Markup, name, "<table>\n");
    GenerateFramedEmpty(name);
    GenerateFramed(name);
  }

  /** The text above the rows, the head and the heading, ends as the heading does. */
  lemma TopEnds(t: Template, name: string, open: string)
    requires EndsWith(t.headingToTable, open)
    ensures EndsWith(Head(t, name) + Heading(t, name), open)
  {
    EndsWithAppend(t.headingPrefix + name, t.headingToTable, open);
    EndsWithAppend(Head(t, name), Heading(t, name), open);
  }

  lemma GenerateFramed(name: string)
    ensures forall mods ::
      Generate(name, mods) == Framed(Head(Markup, name) + Heading(Markup, name), Rows(Markup, Listed(mods)), Markup.closing)
  {
    forall mods
      ensures Generate(name, mods) == Framed(Head(Markup, name) + Heading(Markup, name), Rows(Markup, Listed(mods)), Markup.closing)
    {
      GenerateIsDocument(name, mods);
    }
  }

  lemma GenerateFramedEmpty(name: string)
    ensures Generate(name, []) == Framed(Head(Markup, name) + Heading(Markup, name), [], Markup.closing)
  {
    GenerateWithout(name);
  }

  lemma GenerateIsDocument(name: string, mods: seq<Mods.ModDescriptor>)
    ensures Generate(name, mods) == Document(Markup, Preset(name, Listed(mods)))
  {
  }

  lemma GenerateWithout(name: string)
    ensures Generate(name, []) == Document(Markup, Preset(name, []))
  {
    assert Listed([]) == [];
  }

  // ---------------------------------------------------------------------------
  // Reading a preset back

  /** The rest of `s` after the literal `lit`, if `s` starts with it. */
  function Expect(s: string, lit: string): (r: Option<string>)
    ensures r.Some? <==> StartsWith(s, lit)
    ensures r.Some? ==> s == lit + r.value
  {
    if StartsWith(s, lit) then Some(s[|lit|..]) else None
  }

  lemma ExpectPrefix(lit: string, rest: string)
    ensures Expect(lit + rest, lit) == Some(rest)
  {
    assert (lit + rest)[..|lit|] == lit;
  }

  /** An inserted field: the text up to the first `stop`, which must open the literal `lit`. */
  function ParseField(s: string, stop: char, lit: string): (r: Option<(string, string)>)
    ensures r.Some? ==> |r.value.1| <= |s|
  {
    var field := TakeUntil(s, stop);
    match Expect(s[|field|..], lit)
    case None => None
    case Some(rest) => Some((field, rest))
  }

  lemma ParseFieldOf(field: string, stop: char, lit: string, rest: string)
    requires stop !in field && |lit| > 0 && lit[0] == stop
    ensures ParseField(field + (lit + rest), stop, lit) == Some((field, rest))
  {
    TakeUntilField(field, lit + rest, stop);
    assert (field + (lit + rest))[|field|..] == lit + rest;
    ExpectPrefix(lit, rest);
  }

  lemma ParseFieldExact(s: string, stop: char, lit: string, field: string, rest: string)
    requires ParseField(s, stop, lit) == Some((field, rest))
    ensures stop !in field && s == field + (lit + rest)
  {
    assert s == field + s[|field|..];
  }

  /** A mod whose row reads back: its name holds no '<' and its id no '"'. */
  predicate SafeMod(m: ListedMod) {
    '<' !in m.name && '"' !in m.publishedFileId
  }

  /** A preset whose document reads back: its name holds no '"' and every mod is safe. */
  predicate SafePreset(p: Preset) {
    '"' !in p.name && forall i :: 0 <= i < |p.mods| ==> SafeMod(p.mods[i])
  }

  /**
   Reads one row: the name up to the next '<', the id up to the next '"', the
   id once more as the link text, and the fixed text around them.
   */
  function ParseRow(t: Template, s: string): (r: Option<(ListedMod, string)>)
    ensures r.Some? ==> |r.value.1| <= |s| - |t.rowOpen|
  {
    match Expect(s, t.rowOpen)
    case None => None
    case Some(s1) =>
      match ParseField(s1, '<', t.nameToHref + t.urlPrefix)
      case None => None
      case Some((name, s2)) =>
        match ParseField(s2, '"', t.hrefToText + t.urlPrefix)
        case None => None
        case Some((id, s3)) =>
          match Expect(s3, id + t.rowClose)
          case None => None
          case Some(rest) => Some((ListedMod(name, id), rest))
  }

  /** Reads rows for as long as the text opens one (an empty row opening would never end). */
  function ParseRows(t: Template, s: string): (r: Option<(seq<ListedMod>, string)>)
    decreases |s|
  {
    if |t.rowOpen| == 0 || !StartsWith(s, t.rowOpen) then Some(([], s))
    else
      match ParseRow(t, s)
      case None => None
      case Some((m, rest)) =>
        match ParseRows(t, rest)
        case None => None
        case Some((ms, tail)) => Some(([m] + ms, tail))
  }

  /** The fixed text between the preset name in the metadata and its repetition in the heading. */
  function NameToHeading(t: Template): string {
    t.nameToStyle + t.styleSheet + t.headingPrefix
  }

  /** Reads a whole preset document: its name, twice, its rows, and nothing after the closing text. */
  function ParsePreset(t: Template, doc: string): Option<Preset> {
    match Expect(doc, t.namePrefix)
    case None => None
    case Some(s1) =>
      match ParseField(s1, '"', NameToHeading(t))
      case None => None
      case Some((name, s2)) =>
        match Expect(s2, name + t.headingToTable)
        case None => None
        case Some(s3) =>
          match ParseRows(t, s3)
          case None => None
          case Some((ms, s4)) => if s4 == t.closing then Some(Preset(name, ms)) else None
  }

  // ---------------------------------------------------------------------------
  // The parser inverts the generator

  lemma RowShape(t: Template, m: ListedMod, rest: string)
    ensures Row(t, m) + rest ==
      t.rowOpen + (m.name + ((t.nameToHref + t.urlPrefix) + (m.publishedFileId +
        ((t.hrefToText + t.urlPrefix) + ((m.publishedFileId + t.rowClose) + rest)))))
  {
  }

  lemma RowOpens(t: Template, m: ListedMod, rest: string)
    ensures StartsWith(Row(t, m) + rest, t.rowOpen)
  {
    RowShape(t, m, rest);
    assert (Row(t, m) + rest)[..|t.rowOpen|] == t.rowOpen;
  }

  lemma ParseRowOf(t: Template, m: ListedMod, rest: string)
    requires Delimited(t) && SafeMod(m)
    ensures ParseRow(t, Row(t, m) + rest) == Some((m, rest))
  {
    var id := m.publishedFileId;
    var afterId := (t.hrefToText + t.urlPrefix) + ((id + t.rowClose) + rest);
    var afterName := (t.nameToHref + t.urlPrefix) + (id + afterId);
    RowShape(t, m, rest);
    ExpectPrefix(t.rowOpen, m.name + afterName);
    ParseFieldOf(m.name, '<', t.nameToHref + t.urlPrefix, id + afterId);
    ParseFieldOf(id, '"', t.hrefToText + t.urlPrefix, (id + t.rowClose) + rest);
    ExpectPrefix(id + t.rowClose, rest);
  }

  lemma ParseRowExact(t: Template, s: string, m: ListedMod, rest: string)
    requires ParseRow(t, s) == Some((m, rest))
    ensures SafeMod(m) && s == Row(t, m) + rest
  {
    var s1 := Expect(s, t.rowOpen).value;
    var s2 := ParseField(s1, '<', t.nameToHref + t.urlPrefix).value.1;
    var s3 := ParseField(s2, '"', t.hrefToText + t.urlPrefix).value.1;
    ParseFieldExact(s1, '<', t.nameToHref + t.urlPrefix, m.name, s2);
    ParseFieldExact(s2, '"', t.hrefToText + t.urlPrefix, m.publishedFileId, s3);
    RowShape(t, m, rest);
  }

  lemma RowsCons(t: Template, ms: seq<ListedMod>, rest: string)
    requires |ms| > 0
    ensures Rows(t, ms) + rest == Row(t, ms[0]) + (Rows(t, ms[1..]) + rest)
  {
    AppendAssoc(Row(t, ms[0]), Rows(t, ms[1..]), rest);
  }

  /** A written row in front of more text is read, then reading goes on after it. */
  lemma ParseRowsStep(t: Template, m: ListedMod, later: string)
    requires Delimited(t) && SafeMod(m)
    ensures ParseRows(t, Row(t, m) + later) ==
      match ParseRows(t, later)
      case None => None
      case Some((ms, tail)) => Some(([m] + ms, tail))
  {
    RowOpens(t, m, later);
    ParseRowOf(t, m, later);
  }

  lemma {:induction false} ParseRowsOf(t: Template, ms: seq<ListedMod>, rest: string)
    requires Delimited(t)
    requires forall i :: 0 <= i < |ms| ==> SafeMod(ms[i])
    requires !StartsWith(rest, t.rowOpen)
    ensures ParseRows(t, Rows(t, ms) + rest) == Some((ms, rest))
  {
    if ms == [] {
      assert Rows(t, ms) + rest == rest;
    } else {
      RowsCons(t, ms, rest);
      assert forall i :: 0 <= i < |ms[1..]| ==> SafeMod(ms[1..][i]);
      ParseRowsOf(t, ms[1..], rest);
      ParseRowsStep(t, ms[0], Rows(t, ms[1..]) + rest);
      assert [ms[0]] + ms[1..] == ms;
    }
  }

  /** Reading rows from text that opens a row reads that row, then the rows after it. */
  lemma ParseRowsUnfold(t: Template, s: string)
    requires |t.rowOpen| > 0 && StartsWith(s, t.rowOpen) && ParseRows(t, s).Some?
    ensures ParseRow(t, s).Some?
    ensures var after := ParseRow(t, s).value.1;
      && ParseRows(t, after).Some?
      && ParseRows(t, s).value == ([ParseRow(t, s).value.0] + ParseRows(t, after).value.0, ParseRows(t, after).value.1)
  {
  }

  lemma {:induction false} ParseRowsExact(t: Template, s: string, ms: seq<ListedMod>, rest: string)
    requires ParseRows(t, s) == Some((ms, rest))
    ensures forall i :: 0 <= i < |ms| ==> SafeMod(ms[i])
    ensures s == Rows(t, ms) + rest
    decreases |s|
  {
    if |t.rowOpen| == 0 || !StartsWith(s, t.rowOpen) {
      assert ms == [];
    } else {
      ParseRowsUnfold(t, s);
      var m := ParseRow(t, s).value.0;
      var after := ParseRow(t, s).value.1;
      ParseRowExact(t, s, m, after);
      ParseRowsExact(t, after, ms[1..], rest);
      assert ms == [m] + ms[1..];
      RowsCons(t, ms, rest);
    }
  }

  lemma DocumentShape(t: Template, p: Preset)
    ensures Document(t, p) ==
      t.namePrefix + (p.name + (NameToHeading(t) + ((p.name + t.headingToTable) + (Rows(t, p.mods) + t.closing))))
  {
  }

  lemma ParsePresetOf(t: Template, p: Preset)
    requires Delimited(t) && SafePreset(p)
    ensures ParsePreset(t, Document(t, p)) == Some(p)
  {
    var body := Rows(t, p.mods) + t.closing;
    var afterName := NameToHeading(t) + ((p.name + t.headingToTable) + body);
    DocumentShape(t, p);
    ExpectPrefix(t.namePrefix, p.name + afterName);
    ParseFieldOf(p.name, '"', NameToHeading(t), (p.name + t.headingToTable) + body);
    ExpectPrefix(p.name + t.headingToTable, body);
    ParseRowsOf(t, p.mods, t.closing);
  }

  lemma ParsePresetExact(t: Template, doc: string, p: Preset)
    requires ParsePreset(t, doc) == Some(p)
    ensures SafePreset(p) && doc == Document(t, p)
  {
    var s1 := Expect(doc, t.namePrefix).value;
    var s2 := ParseField(s1, '"', NameToHeading(t)).value.1;
    var s3 := Expect(s2, p.name + t.headingToTable).value;
    ParseFieldExact(s1, '"', NameToHeading(t), p.name, s2);
    ParseRowsExact(t, s3, p.mods, t.closing);
    DocumentShape(t, p);
  }

  /** The parser reads back exactly the safe presets, from exactly their documents. */
  lemma ParsePresetInverse(t: Template, doc: string, p: Preset)
    requires Delimited(t)
    ensures ParsePreset(t, doc) == Some(p) <==> SafePreset(p) && doc == Document(t, p)
  {
    if ParsePreset(t, doc) == Some(p) {
      ParsePresetExact(t, doc, p);
    }
    if SafePreset(p) && doc == Document(t, p) {
      ParsePresetOf(t, p);
    }
  }

  /** The document `generate` writes lists the preset's name and its mods, in order. */
  lemma GenerateReadsBack(name: string, mods: seq<Mods.ModDescriptor>)
    requires SafePreset(Preset(name, Listed(mods)))
    ensures ParsePreset(Markup, Generate(name, mods)) == Some(Preset(name, Listed(mods)))
  {
    MarkupDelimited();
    ParsePresetOf(Markup, Preset(name, Listed(mods)));
  }

  /**
   The name is written without escaping: a name holding a quote ends the
   metadata attribute early, and the document no longer reads back as that preset.
   */
  lemma QuotedNameIsNotReadBack(t: Template, name: string, ms: seq<ListedMod>)
    requires '"' in name
    ensures ParsePreset(t, Document(t, Preset(name, ms))) != Some(Preset(name, ms))
  {
    if ParsePreset(t, Document(t, Preset(name, ms))) == Some(Preset(name, ms)) {
      ParsePresetExact(t, Document(t, Preset(name, ms)), Preset(name, ms));
    }
  }
}
