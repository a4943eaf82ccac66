/** Recognition of an inline source map at the end of a file's source text:
    `//# sourceMappingURL=data:application/json;charset=utf-8;base64,<payload>` where the
    marker may be `#` or `@`, a space may follow it, the charset is optional, the payload
    may be followed by up to two `=` pad characters and the whole by one newline. */
module InlineMap {
  import opened Wrappers
  import opened Strings

  const MapPrefix: string := "sourceMappingURL=data:application/json"
  const Charset: string := ";charset=utf-8"
  const Encoding: string := ";base64,"

  /** `[a-zA-Z0-9+\/]` */
  predicate IsPayloadChar(c: char) {
    ('a' <= c <= 'z') || ('A' <= c <= 'Z') || ('0' <= c <= '9') || c == '+' || c == '/'
  }

  predicate IsPad(c: char) { c == '=' }

  predicate IsMarker(c: char) { c == '#' || c == '@' }

  /** How a recognised comment was written; the payload is the regular expression's
      first capture group. */
  datatype InlineMatch = InlineMatch(
    marker: char,
    spaced: bool,
    charset: bool,
    payload: string,
    padding: nat,
    newline: bool)

  predicate WellFormed(m: InlineMatch) {
    && IsMarker(m.marker)
    && |m.payload| > 0
    && (forall i :: 0 <= i < |m.payload| ==> IsPayloadChar(m.payload[i]))
    && m.padding <= 2
  }

  /** Everything before the payload. */
  function Header(marker: char, spaced: bool, charset: bool): string {
    "//" + [marker] + OptionalText(spaced, " ") + MapPrefix + OptionalText(charset, Charset) + Encoding
  }

  /** The text of a comment written as `m` describes. */
  function Render(m: InlineMatch): string {
    Header(m.marker, m.spaced, m.charset) + m.payload + seq(m.padding, _ => '=')
      + OptionalText(m.newline, "\n")
  }

  /** `\/\/[#@]` at the end of `v`: the marker, and what precedes the two slashes. */
  function ParseMarker(v: string): (r: Option<(char, string)>)
    ensures r.Some? ==> IsMarker(r.value.0) && EndsWith(v, "//" + [r.value.0])
    ensures r.Some? ==> r.value.1 == DropLast(v, 3)
  {
    if |v| < 3 || v[|v| - 3..|v| - 1] != "//" || !IsMarker(v[|v| - 1]) then None
    else
      assert v[|v| - 3..] == v[|v| - 3..|v| - 1] + [v[|v| - 1]];
      Some((v[|v| - 1], DropLast(v, 3)))
  }

  /** `\/\/[#@] ?` at the end of `v`: the marker and whether a space follows it. */
  function ParseLead(v: string): (r: Option<(char, bool)>)
    ensures r.Some? ==> IsMarker(r.value.0) && EndsWith(v, "//" + [r.value.0] + OptionalText(r.value.1, " "))
  {
    var spacing := StripOptional(v, " ");
    var found := ParseMarker(spacing.1);
    if found.None? then None else
    EndsWithConcat(v, "//" + [found.value.0], OptionalText(spacing.0, " "));
    Some((found.value.0, spacing.0))
  }

  /** Reads the header backwards from the end of `v`. */
  function ParseHeader(v: string): (r: Option<(char, bool, bool)>)
    ensures r.Some? ==> IsMarker(r.value.0) && EndsWith(v, Header(r.value.0, r.value.1, r.value.2))
  {
    if !EndsWith(v, Encoding) then None else
    var v1 := DropLast(v, |Encoding|);
    var charset := StripOptional(v1, Charset);
    var v2 := charset.1;
    if !EndsWith(v2, MapPrefix) then None else
    var lead := ParseLead(DropLast(v2, |MapPrefix|));
    if lead.None? then None else
    var start := "//" + [lead.value.0] + OptionalText(lead.value.1, " ");
    EndsWithConcat(v2, start, MapPrefix);
    EndsWithConcat(v1, start + MapPrefix, OptionalText(charset.0, Charset));
    EndsWithConcat(v, start + MapPrefix + OptionalText(charset.0, Charset), Encoding);
    Some((lead.value.0, lead.value.1, charset.0))
  }

  /** The pieces peeled off the end of `s` put back together form the comment. */
  lemma Reassemble(s: string, t: string, u: string, v: string, m: InlineMatch)
    requires EndsWith(s, OptionalText(m.newline, "\n")) && t == DropLast(s, |OptionalText(m.newline, "\n")|)
    requires EndsWith(t, seq(m.padding, _ => '=')) && u == DropLast(t, m.padding)
    requires EndsWith(u, m.payload) && v == DropLast(u, |m.payload|)
    requires EndsWith(v, Header(m.marker, m.spaced, m.charset))
    ensures EndsWith(s, Render(m))
  {
    var h := Header(m.marker, m.spaced, m.charset);
    var pad := seq(m.padding, _ => '=');
    EndsWithConcat(u, h, m.payload);
    EndsWithConcat(t, h + m.payload, pad);
    EndsWithConcat(s, h + m.payload + pad, OptionalText(m.newline, "\n"));
  }

  /** The payload capture `([a-zA-Z0-9+\/]+)` at the end of `u`, and what precedes it. */
  function ParsePayload(u: string): (r: Option<(string, string)>)
    ensures r.Some? ==> |r.value.0| > 0 && (forall i :: 0 <= i < |r.value.0| ==> IsPayloadChar(r.value.0[i]))
    ensures r.Some? ==> EndsWith(u, r.value.0) && r.value.1 == DropLast(u, |r.value.0|)
  {
    var n := SuffixRun(u, IsPayloadChar);
    if n == 0 then None else Some((u[|u| - n..], DropLast(u, n)))
  }

  /** `={0,2}` at the end of `t`: the pad count and what precedes the padding. */
  function ParsePadding(t: string): (r: Option<(nat, string)>)
    ensures r.Some? ==> r.value.0 <= 2 && EndsWith(t, seq(r.value.0, _ => '='))
    ensures r.Some? ==> r.value.0 <= |t| && r.value.1 == DropLast(t, r.value.0)
  {
    var padding := SuffixRun(t, IsPad);
    if padding > 2 then None
    else
      assert t[|t| - padding..] == seq(padding, _ => '=');
      Some((padding, DropLast(t, padding)))
  }

  /** `buffer.match(...)`: the comment that ends the buffer, if any. The expression is
      anchored by `$` without the multiline flag, so the comment must end the buffer,
      save for one optional newline. */
  function Recognise(s: string): (r: Option<InlineMatch>)
    ensures r.Some? ==> WellFormed(r.value) && EndsWith(s, Render(r.value))
  {
    var stripped := StripOptional(s, "\n");
    var padded := ParsePadding(stripped.1);
    if padded.None? then None else
    var body := ParsePayload(padded.value.1);
    if body.None? then None else
    var header := ParseHeader(body.value.1);
    if header.None? then None else
    var m := InlineMatch(header.value.0, header.value.1, header.value.2,
                         body.value.0, padded.value.0, stripped.0);
    Reassemble(s, stripped.1, padded.value.1, body.value.1, m);
    Some(m)
  }

  lemma ParseMarkerComplete(w: string, marker: char)
    requires IsMarker(marker)
    ensures ParseMarker(w + "//" + [marker]) == Some((marker, w))
  {
    var v := w + "//" + [marker];
    assert v[|v| - 3..|v| - 1] == "//";
    assert DropLast(v, 3) == w;
  }

  /** The marker and its optional space are read back as written. */
  lemma ParseLeadComplete(w: string, marker: char, spaced: bool)
    requires IsMarker(marker)
    ensures ParseLead(w + "//" + [marker] + OptionalText(spaced, " ")) == Some((marker, spaced))
  {
    var v4 := w + "//" + [marker];
    if spaced {
      StripOptionalPresent(v4, " ");
    } else {
      assert v4 + "" == v4;
      StripOptionalAbsent(v4, " ");
    }
    ParseMarkerComplete(w, marker);
  }

  /** A header after `w`, grouped as `ParseHeader` peels it. */
  lemma HeaderSplit(w: string, marker: char, spaced: bool, charset: bool)
    ensures w + Header(marker, spaced, charset)
      == (((w + "//" + [marker] + OptionalText(spaced, " ")) + MapPrefix) + OptionalText(charset, Charset)) + Encoding
  {
    Regroup(w, "//", [marker], OptionalText(spaced, " "), MapPrefix, OptionalText(charset, Charset), Encoding);
  }

  lemma Regroup(w: string, a: string, b: string, c: string, d: string, e: string, f: string)
    ensures w + (a + b + c + d + e + f) == (((w + a + b + c) + d) + e) + f
  {
    assert w + (a + b + c + d + e + f) == w + (a + b + c + d + e) + f;
    assert w + (a + b + c + d + e) == w + (a + b + c + d) + e;
    assert w + (a + b + c + d) == w + (a + b + c) + d;
    assert w + (a + b + c) == w + a + b + c;
  }

  /** Every header is read back as written, whatever precedes it. */
  lemma ParseHeaderComplete(w: string, marker: char, spaced: bool, charset: bool)
    requires IsMarker(marker)
    ensures ParseHeader(w + Header(marker, spaced, charset)) == Some((marker, spaced, charset))
  {
    var cs := OptionalText(charset, Charset);
    var v3 := w + "//" + [marker] + OptionalText(spaced, " ");
    var v2 := v3 + MapPrefix;
    var v1 := v2 + cs;
    var v := w + Header(marker, spaced, charset);
    HeaderSplit(w, marker, spaced, charset);
    assert v == v1 + Encoding;
    Peel(v1, Encoding);
    if charset {
      StripOptionalPresent(v2, Charset);
    } else {
      assert v1 == v2;
      StripOptionalAbsent(v2, Charset);
    }
    assert StripOptional(v1, Charset) == (charset, v2);
    Peel(v3, MapPrefix);
    ParseLeadComplete(w, marker, spaced);
  }

  /** The payload is the longest run of payload characters, so it is found exactly when
      the character before it is not one. */
  lemma ParsePayloadComplete(v: string, payload: string)
    requires |payload| > 0 && forall i :: 0 <= i < |payload| ==> IsPayloadChar(payload[i])
    requires |v| > 0 && !IsPayloadChar(v[|v| - 1])
    ensures ParsePayload(v + payload) == Some((payload, v))
  {
    SuffixRunOfAppend(v, payload, IsPayloadChar);
    Peel(v, payload);
  }

  lemma ParsePaddingComplete(u: string, padding: nat)
    requires padding <= 2
    requires |u| > 0 && !IsPad(u[|u| - 1])
    ensures ParsePadding(u + seq(padding, _ => '=')) == Some((padding, u))
  {
    SuffixRunOfAppend(u, seq(padding, _ => '='), IsPad);
    Peel(u, seq(padding, _ => '='));
  }

  /** The rendered comment after `prefix`, up to and including its padding. */
  function Padded(prefix: string, m: InlineMatch): string {
    prefix + Header(m.marker, m.spaced, m.charset) + m.payload + seq(m.padding, _ => '=')
  }

  /** The text up to the padding never ends in a newline: it ends in a pad or in a
      payload character. */
  lemma PaddedLast(prefix: string, m: InlineMatch)
    requires WellFormed(m)
    ensures |Padded(prefix, m)| > 0 && Padded(prefix, m)[|Padded(prefix, m)| - 1] != '\n'
  {
    var u := prefix + Header(m.marker, m.spaced, m.charset) + m.payload;
    var t := Padded(prefix, m);
    assert t == u + seq(m.padding, _ => '=');
    assert u[|u| - 1] == m.payload[|m.payload| - 1];
    if m.padding > 0 {
      assert t[|t| - 1] == '=';
    } else {
      assert t == u;
    }
  }

  /** The rendered comment after `prefix` is the padded text followed by the newline. */
  lemma RenderSplit(prefix: string, m: InlineMatch)
    ensures prefix + Render(m) == Padded(prefix, m) + OptionalText(m.newline, "\n")
  {
    var h := Header(m.marker, m.spaced, m.charset);
    var pad := seq(m.padding, _ => '=');
    var nl := OptionalText(m.newline, "\n");
    var body := h + m.payload + pad;
    assert Render(m) == body + nl;
    assert prefix + (body + nl) == (prefix + body) + nl;
    assert prefix + body == prefix + h + m.payload + pad by {
      assert prefix + (h + m.payload + pad) == (prefix + (h + m.payload)) + pad;
      assert prefix + (h + m.payload) == prefix + h + m.payload;
    }
  }

  /** The optional newline is read back, leaving the text up to the padding. */
  lemma NewlineStage(prefix: string, m: InlineMatch)
    requires WellFormed(m)
    ensures StripOptional(prefix + Render(m), "\n") == (m.newline, Padded(prefix, m))
  {
    var t := Padded(prefix, m);
    RenderSplit(prefix, m);
    PaddedLast(prefix, m);
    if m.newline {
      StripOptionalPresent(t, "\n");
    } else {
      assert t + "" == t;
      StripOptionalAbsent(t, "\n");
    }
  }

  lemma PayloadStage(prefix: string, m: InlineMatch)
    requires WellFormed(m)
    ensures ParsePayload(prefix + Header(m.marker, m.spaced, m.charset) + m.payload)
      == Some((m.payload, prefix + Header(m.marker, m.spaced, m.charset)))
  {
    var h := Header(m.marker, m.spaced, m.charset);
    var v := prefix + h;
    assert v[|v| - 1] == h[|h| - 1] == ',';
    ParsePayloadComplete(v, m.payload);
  }

  lemma PaddingStage(prefix: string, m: InlineMatch)
    requires WellFormed(m)
    ensures ParsePadding(Padded(prefix, m))
      == Some((m.padding, prefix + Header(m.marker, m.spaced, m.charset) + m.payload))
  {
    var u := prefix + Header(m.marker, m.spaced, m.charset) + m.payload;
    assert u[|u| - 1] == m.payload[|m.payload| - 1];
    ParsePaddingComplete(u, m.padding);
  }

  /** `Recognise` succeeds as soon as each stage does. */
  lemma RecogniseStages(s: string, t: string, u: string, v: string, m: InlineMatch)
    requires StripOptional(s, "\n") == (m.newline, t)
    requires ParsePadding(t) == Some((m.padding, u))
    requires ParsePayload(u) == Some((m.payload, v))
    requires ParseHeader(v) == Some((m.marker, m.spaced, m.charset))
    ensures Recognise(s) == Some(m)
  {
  }

  /** Round trip: a well-formed comment at the end of any text is recognised, with the
      payload and every optional part read back as written. */
  lemma RecogniseRender(prefix: string, m: InlineMatch)
    requires WellFormed(m)
    ensures Recognise(prefix + Render(m)) == Some(m)
  {
    NewlineStage(prefix, m);
    PaddingStage(prefix, m);
    PayloadStage(prefix, m);
    ParseHeaderComplete(prefix, m.marker, m.spaced, m.charset);
    RecogniseStages(prefix + Render(m), Padded(prefix, m),
      prefix + Header(m.marker, m.spaced, m.charset) + m.payload,
      prefix + Header(m.marker, m.spaced, m.charset), m);
  }

  /** Only one newline may follow the comment: a blank line after it hides it. */
  lemma BlankLineHides(s: string)
    ensures Recognise(s + "\n\n") == None
  {
    var t := s + "\n";
    assert s + "\n\n" == t + "\n";
    StripOptionalPresent(t, "\n");
    assert SuffixRun(t, IsPad) == 0;
    assert DropLast(t, 0) == t;
    assert SuffixRun(t, IsPayloadChar) == 0;
  }

  /** Any other character after the payload and its padding (a space, a semicolon) hides
      the comment. */
  lemma TrailingCharacterHides(s: string, c: char)
    requires c != '\n' && !IsPad(c) && !IsPayloadChar(c)
    ensures Recognise(s + [c]) == None
  {
    var t := s + [c];
    assert !EndsWith(t, "\n");
    assert SuffixRun(t, IsPad) == 0;
    assert DropLast(t, 0) == t;
    assert SuffixRun(t, IsPayloadChar) == 0;
  }
}
