/** The PNG-to-SVG wrapper of services/conversionService.ts: a fixed SVG
    document embedding the PNG by reference, returned as a base 64 data URL
    (RFC 2397) of the document's UTF-8 bytes. */
module Conversion {
  import opened Types
  import opened Strings
  import opened Decimal
  import opened Markup
  import Utf8
  import Base64

  const SvgNamespace: string := "http://www.w3.org/2000/svg"
  const Title: string := "변환된 PNG"
  /** The description text, written in pieces so that the solver can check
      each piece on its own. */
  const Description: string := "이 SVG는 " + "PNG 이미지를 " + "포함하여 생성되었" + "습니다. 완전한 " + "벡터 그래픽이 아닙니다."

  /** The attributes of the root element, in the order the template writes
      them: `width`, `height`, `viewBox="0 0 W H"` and the namespace. */
  function RootAttributes(w: string, h: string): seq<Attribute> {
    [Attribute("width", w), Attribute("height", h), Attribute("viewBox", "0 0 " + w + " " + h),
     Attribute("xmlns", SvgNamespace)]
  }

  /** The attributes of the image element: the embedded PNG and its size. */
  function ImageAttributes(href: string, w: string, h: string): seq<Attribute> {
    [Attribute("href", href), Attribute("width", w), Attribute("height", h)]
  }

  /** The body of the root tag: `svg width="W" height="H" viewBox="0 0 W H" xmlns="..."`. */
  function RootTag(w: string, h: string): string {
    "svg" + Written(RootAttributes(w, h))
  }

  /** The body of the image tag, an empty element: `image href="..." width="W" height="H" /`. */
  function ImageTag(href: string, w: string, h: string): string {
    "image" + Written(ImageAttributes(href, w, h)) + " /"
  }

  /** The line break and indentation before each child of the root. */
  const Indent: string := "\n        "

  /** The template literal of `convertPngToSvg` after `.trim()`: the leading
      newline and indentation and the trailing newline are gone, the line
      breaks and indentation between the elements stay. */
  function SvgDocument(width: nat, height: nat, pngDataUrl: string): string {
    var w, h := NatToString(width), NatToString(height);
    Tag(RootTag(w, h))
    + Indent + Tag("title") + Title + Tag("/title")
    + Indent + Tag("desc") + Description + Tag("/desc")
    + Indent + Tag(ImageTag(pngDataUrl, w, h))
    + "\n      " + Tag("/svg")
  }

  const DataUrlPrefix: string := "data:image/svg+xml;base64,"

  /** `convertPngToSvg`: always resolves, with the data URL of the document. */
  function ConvertPngToSvg(pngDataUrl: string, width: nat, height: nat): string {
    DataUrlPrefix + Base64.Encode(Utf8.Encode(SvgDocument(width, height, pngDataUrl)))
  }

  /** Digits hold none of the characters that end a tag, an attribute name
      or an attribute value. */
  lemma DigitsAreInert(s: string)
    requires AllDigits(s)
    ensures '>' !in s && '<' !in s && '"' !in s && ' ' !in s && '=' !in s && '/' !in s
  {
  }

  /** The description holds no `<`: it is read as text, not as markup. */
  lemma DescriptionIsText()
    ensures '<' !in Description
  {
    assert '<' !in "이 SVG는 " && '<' !in "PNG 이미지를 " && '<' !in "포함하여 생성되었";
    assert '<' !in "습니다. 완전한 " && '<' !in "벡터 그래픽이 아닙니다.";
  }

  /** The document as a layout of seven tags between texts. */
  lemma DocumentLayout(width: nat, height: nat, url: string)
    ensures var w, h := NatToString(width), NatToString(height);
      SvgDocument(width, height, url)
      == Layout(["", Indent, Title, Indent, Description, Indent, "\n      "],
                [RootTag(w, h), "title", "/title", "desc", "/desc", ImageTag(url, w, h), "/svg"])
  {
    var w, h := NatToString(width), NatToString(height);
    LayoutOfSevenFromTag(Indent, Title, Indent, Description, Indent, "\n      ",
      RootTag(w, h), "title", "/title", "desc", "/desc", ImageTag(url, w, h), "/svg");
  }

  /** The root tag's body does not end the tag early. */
  lemma RootTagClean(w: string, h: string)
    requires AllDigits(w) && AllDigits(h)
    ensures '>' !in RootTag(w, h)
  {
    DigitsAreInert(w);
    DigitsAreInert(h);
    var attrs := RootAttributes(w, h);
    assert '>' !in attrs[2].value;
    WrittenAvoids(attrs, '>');
  }

  /** Neither does the image tag's, as long as the reference holds no `>`. */
  lemma ImageTagClean(url: string, w: string, h: string)
    requires AllDigits(w) && AllDigits(h) && '>' !in url
    ensures '>' !in ImageTag(url, w, h)
  {
    DigitsAreInert(w);
    DigitsAreInert(h);
    WrittenAvoids(ImageAttributes(url, w, h), '>');
  }

  /** No text between the document's tags opens a tag, and no tag body
      closes one early. */
  lemma DocumentPiecesClean(w: string, h: string, url: string)
    requires AllDigits(w) && AllDigits(h) && '>' !in url
    ensures '>' !in RootTag(w, h) && '>' !in ImageTag(url, w, h)
    ensures '>' !in "title" && '>' !in "/title" && '>' !in "desc" && '>' !in "/desc" && '>' !in "/svg"
    ensures '<' !in "" && '<' !in Indent && '<' !in Title && '<' !in Description && '<' !in "\n      "
  {
    RootTagClean(w, h);
    ImageTagClean(url, w, h);
    DescriptionIsText();
  }

  /** The document's tags, in order: the root, the title, the description,
      one image and the root's end tag. */
  lemma DocumentTags(width: nat, height: nat, url: string)
    requires '>' !in url
    ensures var w, h := NatToString(width), NatToString(height);
      Tags(SvgDocument(width, height, url))
      == [RootTag(w, h), "title", "/title", "desc", "/desc", ImageTag(url, w, h), "/svg"]
  {
    var w, h := NatToString(width), NatToString(height);
    DocumentPiecesClean(w, h, url);
    DocumentLayout(width, height, url);
    TagsOfSeven("", RootTag(w, h), Indent, "title", Title, "/title", Indent, "desc",
      Description, "/desc", Indent, ImageTag(url, w, h), "\n      ", "/svg");
  }

  /** A numeric attribute as a viewer reads it. */
  function NatAttr(body: string, name: string): Option<nat> {
    match Attr(body, name)
    case None => None
    case Some(v) => ParseNat(v)
  }

  /** Numbers separated by single spaces, as in a `viewBox`. */
  function ParseNats(parts: seq<string>): (r: Option<seq<nat>>)
    ensures r.Some? ==> |r.value| == |parts|
    decreases |parts|
  {
    if |parts| == 0 then Some([])
    else
      var first, rest := ParseNat(parts[0]), ParseNats(parts[1..]);
      if first.Some? && rest.Some? then Some([first.value] + rest.value) else None
  }

  /** The `viewBox` of a tag body, read as numbers. */
  function ViewBox(body: string): Option<seq<nat>> {
    match Attr(body, "viewBox")
    case None => None
    case Some(v) => ParseNats(Split(v, ' '))
  }

  /** The root tag is read back as `svg` with exactly the attributes written. */
  lemma RootReadsBack(w: string, h: string)
    requires AllDigits(w) && AllDigits(h)
    ensures TagName(RootTag(w, h)) == "svg"
    ensures TagAttributes(RootTag(w, h)) == RootAttributes(w, h)
  {
    DigitsAreInert(w);
    DigitsAreInert(h);
    var attrs := RootAttributes(w, h);
    assert Avoids(attrs[2].value, {'"'});
    assert Avoids(SvgNamespace, {'"'});
    assert RootTag(w, h) == "svg" + Written(attrs) + "";
    ReadTagBody("svg", attrs, "");
  }

  /** The image tag is read back as `image` with exactly the attributes
      written; the closing ` /` adds none. */
  lemma ImageReadsBack(url: string, w: string, h: string)
    requires AllDigits(w) && AllDigits(h) && '"' !in url
    ensures TagName(ImageTag(url, w, h)) == "image"
    ensures TagAttributes(ImageTag(url, w, h)) == ImageAttributes(url, w, h)
  {
    DigitsAreInert(w);
    DigitsAreInert(h);
    var attrs := ImageAttributes(url, w, h);
    ReadTagBody("image", attrs, " /");
    assert Attributes(" /") == [];
  }

  /** The view box `0 0 W H` is read back as the four numbers. */
  lemma ViewBoxReadsBack(width: nat, height: nat)
    ensures var w, h := NatToString(width), NatToString(height);
      ParseNats(Split("0 0 " + w + " " + h, ' ')) == Some([0, 0, width, height])
  {
    var w, h := NatToString(width), NatToString(height);
    assert Split("0 0 " + w + " " + h, ' ') == ["0", "0", w, h] by {
      DigitsAreInert(w);
      DigitsAreInert(h);
      assert "0 0 " + w + " " + h == "0" + [' '] + "0" + [' '] + w + [' '] + h;
      SplitFour("0", "0", w, h, ' ');
    }
    ParseNatToString(0);
    ParseNatToString(width);
    ParseNatToString(height);
    ParseNatsFour("0", "0", w, h);
  }

  lemma ParseNatsFour(a: string, b: string, c: string, d: string)
    requires ParseNat(a).Some? && ParseNat(b).Some? && ParseNat(c).Some? && ParseNat(d).Some?
    ensures ParseNats([a, b, c, d])
      == Some([ParseNat(a).value, ParseNat(b).value, ParseNat(c).value, ParseNat(d).value])
  {
    var na, nb, nc, nd := ParseNat(a).value, ParseNat(b).value, ParseNat(c).value, ParseNat(d).value;
    assert ParseNats([d]) == Some([nd]) by {
      assert [d][1..] == [];
      assert [nd] + [] == [nd];
    }
    assert ParseNats([c, d]) == Some([nc, nd]) by {
      assert [c, d][1..] == [d];
      assert [nc] + [nd] == [nc, nd];
    }
    assert ParseNats([b, c, d]) == Some([nb, nc, nd]) by {
      assert [b, c, d][1..] == [c, d];
      assert [nb] + [nc, nd] == [nb, nc, nd];
    }
    assert [a, b, c, d][1..] == [b, c, d];
    assert [na] + [nb, nc, nd] == [na, nb, nc, nd];
  }

  /** The attributes of the root, looked up by name. */
  lemma RootAttributeValues(w: string, h: string)
    ensures var attrs := RootAttributes(w, h);
      Lookup(attrs, "width") == Some(w) && Lookup(attrs, "height") == Some(h)
      && Lookup(attrs, "viewBox") == Some("0 0 " + w + " " + h)
  {
    var attrs := RootAttributes(w, h);
    assert attrs[1..][0].name == "height";
    assert attrs[1..][1..][0].name == "viewBox";
  }

  /** The root tag states the size it was given, both as its width and height
      and as its view box. */
  lemma RootTagStatesSize(width: nat, height: nat)
    ensures var root := RootTag(NatToString(width), NatToString(height));
      TagName(root) == "svg"
      && NatAttr(root, "width") == Some(width) && NatAttr(root, "height") == Some(height)
      && ViewBox(root) == Some([0, 0, width, height])
  {
    var w, h := NatToString(width), NatToString(height);
    var root := RootTag(w, h);
    assert TagName(root) == "svg" && TagAttributes(root) == RootAttributes(w, h) by {
      RootReadsBack(w, h);
    }
    RootAttributeValues(w, h);
    ParseNatToString(width);
    ParseNatToString(height);
    ViewBoxReadsBack(width, height);
  }

  /** The attributes of the image, looked up by name. */
  lemma ImageAttributeValues(url: string, w: string, h: string)
    ensures var attrs := ImageAttributes(url, w, h);
      Lookup(attrs, "href") == Some(url) && Lookup(attrs, "width") == Some(w) && Lookup(attrs, "height") == Some(h)
  {
    var attrs := ImageAttributes(url, w, h);
    assert attrs[1..][0].name == "width";
    assert attrs[1..][1..][0].name == "height";
  }

  /** The image tag refers to the PNG it was given and has the PNG's size. */
  lemma ImageTagStatesPng(url: string, width: nat, height: nat)
    requires '"' !in url
    ensures var image := ImageTag(url, NatToString(width), NatToString(height));
      TagName(image) == "image" && Attr(image, "href") == Some(url)
      && NatAttr(image, "width") == Some(width) && NatAttr(image, "height") == Some(height)
  {
    var w, h := NatToString(width), NatToString(height);
    var image := ImageTag(url, w, h);
    assert TagName(image) == "image" && TagAttributes(image) == ImageAttributes(url, w, h) by {
      ImageReadsBack(url, w, h);
    }
    ImageAttributeValues(url, w, h);
    ParseNatToString(width);
    ParseNatToString(height);
  }

  /** Of the document's tags only one is an image. */
  lemma OneImage(w: string, h: string, url: string)
    requires AllDigits(w) && AllDigits(h) && '"' !in url
    ensures var tags := [RootTag(w, h), "title", "/title", "desc", "/desc", ImageTag(url, w, h), "/svg"];
      Named(tags, "image") == [ImageTag(url, w, h)]
  {
    var root, image := RootTag(w, h), ImageTag(url, w, h);
    assert TagName(root) == "svg" by {
      RootReadsBack(w, h);
    }
    assert TagName(image) == "image" by {
      ImageReadsBack(url, w, h);
    }
    NamedSeven(root, image);
  }

  lemma NamedSeven(root: string, image: string)
    requires TagName(root) == "svg" && TagName(image) == "image"
    ensures Named([root, "title", "/title", "desc", "/desc", image, "/svg"], "image") == [image]
  {
    var tags := [root, "title", "/title", "desc", "/desc", image, "/svg"];
    forall i | 1 <= i < 7 && i != 5 ensures TagName(tags[i]) == tags[i] && tags[i] != "image" {
      SpanAll(tags[i], {' '});
    }
    assert Named(tags[6..], "image") == [] by {
      assert tags[6..][1..] == [];
    }
    assert Named(tags[5..], "image") == [image] by {
      assert tags[5..][1..] == tags[6..];
    }
    assert Named(tags[4..], "image") == [image] by {
      assert tags[4..][1..] == tags[5..];
    }
    assert Named(tags[3..], "image") == [image] by {
      assert tags[3..][1..] == tags[4..];
    }
    assert Named(tags[2..], "image") == [image] by {
      assert tags[2..][1..] == tags[3..];
    }
    assert Named(tags[1..], "image") == [image] by {
      assert tags[1..][1..] == tags[2..];
    }
  }

  /** Reading the document, its root element states the size it was given. */
  lemma RootStatesSize(width: nat, height: nat, url: string)
    requires '>' !in url
    ensures var tags := Tags(SvgDocument(width, height, url));
      |tags| == 7 && tags[0] == RootTag(NatToString(width), NatToString(height))
      && TagName(tags[0]) == "svg"
      && NatAttr(tags[0], "width") == Some(width) && NatAttr(tags[0], "height") == Some(height)
      && ViewBox(tags[0]) == Some([0, 0, width, height])
  {
    DocumentTags(width, height, url);
    RootTagStatesSize(width, height);
  }

  /** Reading the document, it holds exactly one image, which refers to the
      PNG it was given and has the PNG's size. */
  lemma DocumentEmbedsPng(width: nat, height: nat, url: string)
    requires '>' !in url && '"' !in url
    ensures var images := Named(Tags(SvgDocument(width, height, url)), "image");
      |images| == 1 && Attr(images[0], "href") == Some(url)
      && NatAttr(images[0], "width") == Some(width) && NatAttr(images[0], "height") == Some(height)
  {
    DocumentTags(width, height, url);
    OneImage(NatToString(width), NatToString(height), url);
    ImageTagStatesPng(url, width, height);
  }

  /** After `.trim()` the document starts with the root's `<svg` and ends
      with its end tag `</svg>`, so no white space is left at either end. */
  lemma DocumentIsTrimmed(width: nat, height: nat, url: string)
    ensures var doc := SvgDocument(width, height, url);
      |doc| >= 6 && doc[..4] == "<svg" && doc[|doc| - 6..] == "</svg>"
  {
    DocumentOpens(width, height, url);
    DocumentCloses(width, height, url);
  }

  lemma DocumentOpens(width: nat, height: nat, url: string)
    ensures var doc := SvgDocument(width, height, url);
      |doc| >= 4 && doc[..4] == "<svg"
  {
    var w, h := NatToString(width), NatToString(height);
    var texts := ["", Indent, Title, Indent, Description, Indent, "\n      "];
    var bodies := [RootTag(w, h), "title", "/title", "desc", "/desc", ImageTag(url, w, h), "/svg"];
    DocumentLayout(width, height, url);
    LayoutStep(texts, bodies);
    var head, rest := Tag(RootTag(w, h)), Layout(texts[1..], bodies[1..]);
    assert SvgDocument(width, height, url) == head + rest;
    RootTagOpens(w, h);
    PrefixOfAppend(head, rest, 4);
  }

  lemma RootTagOpens(w: string, h: string)
    ensures |Tag(RootTag(w, h))| >= 4 && Tag(RootTag(w, h))[..4] == "<svg"
  {
    var written := Written(RootAttributes(w, h));
    assert Tag(RootTag(w, h)) == "<svg" + (written + ">");
  }

  lemma DocumentCloses(width: nat, height: nat, url: string)
    ensures var doc := SvgDocument(width, height, url);
      |doc| >= 6 && doc[|doc| - 6..] == "</svg>"
  {
    var w, h := NatToString(width), NatToString(height);
    var front := Tag(RootTag(w, h))
      + Indent + Tag("title") + Title + Tag("/title")
      + Indent + Tag("desc") + Description + Tag("/desc")
      + Indent + Tag(ImageTag(url, w, h)) + "\n      ";
    assert SvgDocument(width, height, url) == front + Tag("/svg");
    EndTagWritten();
    SuffixOfAppend(front, "</svg>");
  }

  lemma EndTagWritten()
    ensures Tag("/svg") == "</svg>"
  {
  }

  /** Reads an SVG data URL back into its document: the prefix, then base 64,
      then UTF-8. */
  function DecodeSvgDataUrl(u: string): Option<string> {
    if |u| >= |DataUrlPrefix| && u[..|DataUrlPrefix|] == DataUrlPrefix then
      match Base64.Decode(u[|DataUrlPrefix|..])
      case None => None
      case Some(bytes) => Utf8.Decode(bytes)
    else None
  }

  /** Round trip: the data URL decodes to the document it was made from. */
  lemma ConvertPngToSvgDecodes(url: string, width: nat, height: nat)
    ensures DecodeSvgDataUrl(ConvertPngToSvg(url, width, height)) == Some(SvgDocument(width, height, url))
  {
    var doc := SvgDocument(width, height, url);
    var r := ConvertPngToSvg(url, width, height);
    assert r[..|DataUrlPrefix|] == DataUrlPrefix;
    assert r[|DataUrlPrefix|..] == Base64.Encode(Utf8.Encode(doc));
    Base64.DecodeEncode(Utf8.Encode(doc));
    Utf8.DecodeEncode(doc);
  }

  /** Conversely, a data URL that decodes to a document is exactly the one
      `convertPngToSvg` writes for it: the encoding is canonical. */
  lemma DecodeSvgDataUrlCanonical(u: string)
    requires DecodeSvgDataUrl(u).Some?
    ensures u == DataUrlPrefix + Base64.Encode(Utf8.Encode(DecodeSvgDataUrl(u).value))
  {
    var payload := u[|DataUrlPrefix|..];
    var bytes := Base64.Decode(payload).value;
    Base64.EncodeDecode(payload);
    Utf8.EncodeDecode(bytes);
    assert u == u[..|DataUrlPrefix|] + payload;
  }

  /** The payload after the prefix is well-formed base 64: four characters for
      every three bytes of the document, all from the alphabet or padding. */
  lemma ConvertPngToSvgShape(url: string, width: nat, height: nat)
    ensures var r := ConvertPngToSvg(url, width, height);
      var payload := r[|DataUrlPrefix|..];
      var n := |Utf8.Encode(SvgDocument(width, height, url))|;
      |r| >= |DataUrlPrefix| && r[..|DataUrlPrefix|] == DataUrlPrefix
      && |payload| == 4 * ((n + 2) / 3)
      && Base64.IsOutput(payload)
  {
    var bytes := Utf8.Encode(SvgDocument(width, height, url));
    Base64.EncodeShape(bytes);
    var r := ConvertPngToSvg(url, width, height);
    assert r[|DataUrlPrefix|..] == Base64.Encode(bytes);
  }

  /** What `FileReader.readAsDataURL` yields for a file of the given type. */
  function ReadAsDataUrl(mimeType: string, bytes: seq<Utf8.Byte>): string {
    "data:" + mimeType + ";base64," + Base64.Encode(bytes)
  }

  /** Such a URL can be embedded as an attribute value and inside a tag. */
  lemma ReadAsDataUrlIsInert(mimeType: string, bytes: seq<Utf8.Byte>)
    requires '>' !in mimeType && '"' !in mimeType
    ensures '>' !in ReadAsDataUrl(mimeType, bytes) && '"' !in ReadAsDataUrl(mimeType, bytes)
  {
    var payload := Base64.Encode(bytes);
    Base64.EncodeShape(bytes);
    assert '>' !in payload && '"' !in payload;
  }
}
