/** A small reader for the markup the PNG-to-SVG wrapper writes: it lists the
    tags of a document and the double-quoted attributes of a tag. It is the
    independent reading against which the wrapper's document is checked. */
module Markup {
  import opened Types
  import opened Strings

  /** The bodies of the tags of `s`, in order: what stands between each `<`
      and the next `>`. Text outside tags is skipped; an unterminated tag
      ends the list. */
  function Tags(s: string): seq<string>
    decreases |s|
  {
    if |s| == 0 then []
    else if s[0] != '<' then Tags(s[1..])
    else
      var body := Span(s[1..], {'>'});
      if |body| == |s| - 1 then []
      else [body] + Tags(s[|body| + 2..])
  }

  /** Text that holds no `<` contributes no tag. */
  lemma {:induction false} TagsSkipText(t: string, rest: string)
    requires '<' !in t
    ensures Tags(t + rest) == Tags(rest)
    decreases |t|
  {
    if |t| > 0 {
      assert (t + rest)[0] == t[0];
      assert (t + rest)[1..] == t[1..] + rest;
      TagsSkipText(t[1..], rest);
    } else {
      assert t + rest == rest;
    }
  }

  /** A tag written out: its body between angle brackets. */
  function Tag(body: string): string {
    "<" + body + ">"
  }

  /** A tag whose body holds no `>` is read back as exactly that body. */
  lemma TagsReadTag(body: string, rest: string)
    requires '>' !in body
    ensures Tags(Tag(body) + rest) == [body] + Tags(rest)
  {
    var s := Tag(body) + rest;
    assert s[1..] == body + ['>'] + rest;
    SpanUpTo(body, '>', rest, {'>'});
    assert s[|body| + 2..] == rest;
  }

  /** A document laid out as text, tag, text, tag, ...: text `texts[i]`
      stands before the tag whose body is `bodies[i]`. */
  function Layout(texts: seq<string>, bodies: seq<string>): string
    requires |texts| == |bodies|
    decreases |texts|
  {
    if |texts| == 0 then "" else texts[0] + Tag(bodies[0]) + Layout(texts[1..], bodies[1..])
  }

  /** Reading a laid-out document gives back exactly its tag bodies, provided
      no text holds a `<` and no body a `>`. */
  lemma {:induction false} TagsOfLayout(texts: seq<string>, bodies: seq<string>)
    requires |texts| == |bodies|
    requires forall i :: 0 <= i < |texts| ==> '<' !in texts[i] && '>' !in bodies[i]
    ensures Tags(Layout(texts, bodies)) == bodies
    decreases |texts|
  {
    if |texts| > 0 {
      var rest := Layout(texts[1..], bodies[1..]);
      assert texts[0] + Tag(bodies[0]) + rest == texts[0] + (Tag(bodies[0]) + rest);
      TagsSkipText(texts[0], Tag(bodies[0]) + rest);
      TagsReadTag(bodies[0], rest);
      TagsOfLayout(texts[1..], bodies[1..]);
      assert bodies == [bodies[0]] + bodies[1..];
    }
  }

  /** Seven tags laid out between seven texts are read back as the seven bodies. */
  lemma TagsOfSeven(t0: string, b0: string, t1: string, b1: string, t2: string, b2: string, t3: string, b3: string,
                    t4: string, b4: string, t5: string, b5: string, t6: string, b6: string)
    requires '>' !in b0 && '>' !in b1 && '>' !in b2 && '>' !in b3 && '>' !in b4 && '>' !in b5 && '>' !in b6
    requires '<' !in t0 && '<' !in t1 && '<' !in t2 && '<' !in t3 && '<' !in t4 && '<' !in t5 && '<' !in t6
    ensures Tags(Layout([t0, t1, t2, t3, t4, t5, t6], [b0, b1, b2, b3, b4, b5, b6])) == [b0, b1, b2, b3, b4, b5, b6]
  {
    var texts := [t0, t1, t2, t3, t4, t5, t6];
    var bodies := [b0, b1, b2, b3, b4, b5, b6];
    SevenClean(texts, bodies);
    TagsOfLayout(texts, bodies);
  }

  lemma SevenClean(texts: seq<string>, bodies: seq<string>)
    requires |texts| == |bodies| == 7
    requires '<' !in texts[0] && '<' !in texts[1] && '<' !in texts[2] && '<' !in texts[3] && '<' !in texts[4] && '<' !in texts[5] && '<' !in texts[6]
    requires '>' !in bodies[0] && '>' !in bodies[1] && '>' !in bodies[2] && '>' !in bodies[3] && '>' !in bodies[4] && '>' !in bodies[5] && '>' !in bodies[6]
    ensures forall i :: 0 <= i < |texts| ==> '<' !in texts[i] && '>' !in bodies[i]
  {
  }

  /** A layout of seven tags, written out. */
  lemma LayoutOfSeven(t0: string, t1: string, t2: string, t3: string, t4: string, t5: string, t6: string,
                      b0: string, b1: string, b2: string, b3: string, b4: string, b5: string, b6: string)
    ensures Layout([t0, t1, t2, t3, t4, t5, t6], [b0, b1, b2, b3, b4, b5, b6])
      == t0 + Tag(b0) + t1 + Tag(b1) + t2 + Tag(b2) + t3 + Tag(b3) + t4 + Tag(b4) + t5 + Tag(b5) + t6 + Tag(b6)
  {
    LayoutOfSevenNested(t0, t1, t2, t3, t4, t5, t6, b0, b1, b2, b3, b4, b5, b6);
    Regroup(t0, Tag(b0), t1, Tag(b1), t2, Tag(b2), t3, Tag(b3), t4, Tag(b4), t5, Tag(b5), t6, Tag(b6));
  }

  /** The same, grouped from the right as `Layout` builds it. */
  lemma LayoutOfSevenNested(t0: string, t1: string, t2: string, t3: string, t4: string, t5: string, t6: string,
                            b0: string, b1: string, b2: string, b3: string, b4: string, b5: string, b6: string)
    ensures Layout([t0, t1, t2, t3, t4, t5, t6], [b0, b1, b2, b3, b4, b5, b6])
      == t0 + (Tag(b0) + (t1 + (Tag(b1) + (t2 + (Tag(b2) + (t3 + (Tag(b3)
         + (t4 + (Tag(b4) + (t5 + (Tag(b5) + (t6 + Tag(b6)))))))))))))
  {
    var texts := [t0, t1, t2, t3, t4, t5, t6];
    var bodies := [b0, b1, b2, b3, b4, b5, b6];
    LayoutStep(texts[6..], bodies[6..]);
    assert Layout(texts[6..][1..], bodies[6..][1..]) == "";
    LayoutStep(texts[5..], bodies[5..]);
    LayoutStep(texts[4..], bodies[4..]);
    LayoutStep(texts[3..], bodies[3..]);
    LayoutStep(texts[2..], bodies[2..]);
    LayoutStep(texts[1..], bodies[1..]);
    LayoutStep(texts, bodies);
    assert texts[1..][1..] == texts[2..] && bodies[1..][1..] == bodies[2..];
    assert texts[2..][1..] == texts[3..] && bodies[2..][1..] == bodies[3..];
    assert texts[3..][1..] == texts[4..] && bodies[3..][1..] == bodies[4..];
    assert texts[4..][1..] == texts[5..] && bodies[4..][1..] == bodies[5..];
    assert texts[5..][1..] == texts[6..] && bodies[5..][1..] == bodies[6..];
  }

  /** One text and one tag taken off the front of a layout. */
  lemma LayoutStep(texts: seq<string>, bodies: seq<string>)
    requires |texts| == |bodies| > 0
    ensures Layout(texts, bodies) == texts[0] + (Tag(bodies[0]) + Layout(texts[1..], bodies[1..]))
  {
  }

  /** Concatenation regrouped from the right to the left. */
  lemma Regroup(a0: string, a1: string, a2: string, a3: string, a4: string, a5: string, a6: string,
                a7: string, a8: string, a9: string, a10: string, a11: string, a12: string, a13: string)
    ensures a0 + (a1 + (a2 + (a3 + (a4 + (a5 + (a6 + (a7 + (a8 + (a9 + (a10 + (a11 + (a12 + a13))))))))))))
      == a0 + a1 + a2 + a3 + a4 + a5 + a6 + a7 + a8 + a9 + a10 + a11 + a12 + a13
  {
  }

  /** The same layout when it opens with a tag. */
  lemma LayoutOfSevenFromTag(t1: string, t2: string, t3: string, t4: string, t5: string, t6: string,
                             b0: string, b1: string, b2: string, b3: string, b4: string, b5: string, b6: string)
    ensures Layout(["", t1, t2, t3, t4, t5, t6], [b0, b1, b2, b3, b4, b5, b6])
      == Tag(b0) + t1 + Tag(b1) + t2 + Tag(b2) + t3 + Tag(b3) + t4 + Tag(b4) + t5 + Tag(b5) + t6 + Tag(b6)
  {
    LayoutOfSeven("", t1, t2, t3, t4, t5, t6, b0, b1, b2, b3, b4, b5, b6);
    assert "" + Tag(b0) == Tag(b0);
  }

  /** The name of a tag: its body up to the first space. */
  function TagName(body: string): (name: string)
    ensures name <= body && ' ' !in name
  {
    Span(body, {' '})
  }

  datatype Attribute = Attribute(name: string, value: string)

  /** The characters that end an attribute name. */
  const NameStops: set<char> := {'=', ' ', '/'}

  /** The attributes ` name="value"` that follow a tag name, read from the
      left until something else is met (such as the ` /` of an empty tag). */
  function Attributes(s: string): seq<Attribute>
    decreases |s|
  {
    if |s| >= 1 && s[0] == ' ' then
      var name := Span(s[1..], NameStops);
      var after := s[1 + |name|..];
      if |name| > 0 && |after| >= 2 && after[0] == '=' && after[1] == '"' then
        var value := Span(after[2..], {'"'});
        if |value| < |after| - 2 then [Attribute(name, value)] + Attributes(after[3 + |value|..])
        else []
      else []
    else []
  }

  /** An attribute the reader can take back: a non-empty name free of the
      characters that end a name, and a value free of `"`. */
  predicate WellFormed(a: Attribute) {
    |a.name| > 0 && Avoids(a.name, NameStops) && Avoids(a.value, {'"'})
  }

  /** One attribute written out: ` name="value"`. */
  function WrittenOne(a: Attribute): string {
    " " + a.name + "=\"" + a.value + "\""
  }

  /** Attributes written out one after the other. */
  function Written(attrs: seq<Attribute>): string
    decreases |attrs|
  {
    if |attrs| == 0 then "" else WrittenOne(attrs[0]) + Written(attrs[1..])
  }

  /** One well-formed attribute is read back, and reading goes on after it. */
  lemma AttributesReadOne(a: Attribute, rest: string)
    requires WellFormed(a)
    ensures Attributes(WrittenOne(a) + rest) == [a] + Attributes(rest)
  {
    var tail := ['"'] + a.value + (['"'] + rest);
    var after := ['='] + tail;
    WrittenOneShape(a, tail, rest);
    QuotedShape(a.value, rest);
    SpanUpTo(a.name, '=', tail, NameStops);
    SpanUpTo(a.value, '"', rest, {'"'});
    AttributesStep(WrittenOne(a) + rest, a, after, rest);
  }

  /** Where the name and the value of a written attribute stand. */
  lemma WrittenOneShape(a: Attribute, tail: string, rest: string)
    requires tail == ['"'] + a.value + (['"'] + rest)
    ensures var s := WrittenOne(a) + rest;
      |s| >= 1 && s[0] == ' ' && s[1..] == a.name + ['='] + tail
      && s[1 + |a.name|..] == ['='] + tail
  {
    var s := WrittenOne(a) + rest;
    assert s == [' '] + a.name + (['='] + tail);
  }

  /** Where the value of a written attribute ends. */
  lemma QuotedShape(value: string, rest: string)
    ensures var after := ['='] + (['"'] + value + (['"'] + rest));
      |after| >= 2 && after[0] == '=' && after[1] == '"'
      && after[2..] == value + ['"'] + rest && after[3 + |value|..] == rest
  {
    var after := ['='] + (['"'] + value + (['"'] + rest));
    assert after == ['=', '"'] + value + ['"'] + rest;
  }

  /** The reader's step on an attribute whose name and value it has found. */
  lemma AttributesStep(s: string, a: Attribute, after: string, rest: string)
    requires |s| >= 1 && s[0] == ' '
    requires Span(s[1..], NameStops) == a.name && |a.name| > 0
    requires s[1 + |a.name|..] == after
    requires |after| >= 2 && after[0] == '=' && after[1] == '"'
    requires Span(after[2..], {'"'}) == a.value && |a.value| < |after| - 2
    requires after[3 + |a.value|..] == rest
    ensures Attributes(s) == [a] + Attributes(rest)
  {
  }

  /** Written attributes are read back in order, and reading goes on after them. */
  lemma {:induction false} AttributesOfWritten(attrs: seq<Attribute>, rest: string)
    requires forall i :: 0 <= i < |attrs| ==> WellFormed(attrs[i])
    ensures Attributes(Written(attrs) + rest) == attrs + Attributes(rest)
    decreases |attrs|
  {
    if |attrs| == 0 {
      assert Written(attrs) + rest == rest;
    } else {
      calc {
        Attributes(Written(attrs) + rest);
        { AttributesOfWrittenStep(attrs, rest); }
        [attrs[0]] + Attributes(Written(attrs[1..]) + rest);
        { AttributesOfWritten(attrs[1..], rest); }
        [attrs[0]] + (attrs[1..] + Attributes(rest));
        { assert attrs == [attrs[0]] + attrs[1..]; }
        attrs + Attributes(rest);
      }
    }
  }

  lemma AttributesOfWrittenStep(attrs: seq<Attribute>, rest: string)
    requires |attrs| > 0 && WellFormed(attrs[0])
    ensures Attributes(Written(attrs) + rest) == [attrs[0]] + Attributes(Written(attrs[1..]) + rest)
  {
    var head, tail := WrittenOne(attrs[0]), Written(attrs[1..]);
    assert Written(attrs) + rest == head + (tail + rest);
    AttributesReadOne(attrs[0], tail + rest);
  }

  /** Written attributes hold a character other than the writer's own
      punctuation only where a name or a value holds it. */
  lemma {:induction false} WrittenAvoids(attrs: seq<Attribute>, c: char)
    requires c != ' ' && c != '=' && c != '"'
    requires forall i :: 0 <= i < |attrs| ==> c !in attrs[i].name && c !in attrs[i].value
    ensures c !in Written(attrs)
    decreases |attrs|
  {
    if |attrs| > 0 {
      WrittenAvoids(attrs[1..], c);
      assert c !in WrittenOne(attrs[0]);
    }
  }

  /** A tag body written as a name followed by attributes is read back as
      that name and those attributes. */
  lemma ReadTagBody(name: string, attrs: seq<Attribute>, rest: string)
    requires |attrs| > 0 && Avoids(name, {' '})
    requires forall i :: 0 <= i < |attrs| ==> WellFormed(attrs[i])
    ensures TagName(name + Written(attrs) + rest) == name
    ensures TagAttributes(name + Written(attrs) + rest) == attrs + Attributes(rest)
  {
    var after := Written(attrs) + rest;
    TagBodyShape(name, attrs, rest);
    SpanUpTo(name, ' ', after[1..], {' '});
    AttributesOfWritten(attrs, rest);
  }

  /** Written attributes start with a space, so a tag name before them ends
      where they begin. */
  lemma TagBodyShape(name: string, attrs: seq<Attribute>, rest: string)
    requires |attrs| > 0
    ensures var body, after := name + Written(attrs) + rest, Written(attrs) + rest;
      |after| > 0 && body == name + [' '] + after[1..] && body[|name|..] == after
  {
    var after := Written(attrs) + rest;
    assert after[0] == ' ';
    assert after == [' '] + after[1..];
    assert name + Written(attrs) + rest == name + after;
  }

  /** The attributes of a tag body. */
  function TagAttributes(body: string): seq<Attribute> {
    Attributes(body[|TagName(body)|..])
  }

  /** The value of the first attribute called `name`, if any. */
  function Lookup(attrs: seq<Attribute>, name: string): (r: Option<string>)
    ensures r.Some? <==> exists i :: 0 <= i < |attrs| && attrs[i].name == name
    ensures r.Some? ==> exists i :: 0 <= i < |attrs| && attrs[i] == Attribute(name, r.value)
    decreases |attrs|
  {
    if |attrs| == 0 then None
    else if attrs[0].name == name then Some(attrs[0].value)
    else
      var r := Lookup(attrs[1..], name);
      assert forall i :: 0 < i < |attrs| ==> attrs[i] == attrs[1..][i - 1];
      r
  }

  /** The value of attribute `name` of a tag body. */
  function Attr(body: string, name: string): Option<string> {
    Lookup(TagAttributes(body), name)
  }

  /** The tags called `name`, in document order. */
  function Named(tags: seq<string>, name: string): (r: seq<string>)
    ensures |r| <= |tags|
    ensures forall i :: 0 <= i < |r| ==> TagName(r[i]) == name && r[i] in tags
    decreases |tags|
  {
    if |tags| == 0 then []
    else if TagName(tags[0]) == name then [tags[0]] + Named(tags[1..], name)
    else Named(tags[1..], name)
  }
}
