/** The read-only preview of the job description on the resume-scoring page:
    the text is cut at every `##`, blank pieces are dropped, the first piece is
    shown as plain text, and every later piece shows its first line as a header
    and its remaining lines one per row, lines starting with '-' as bullets. */
module JdPreview {
  import opened Prelude
  import opened Text

  /** One row of a section's body. */
  datatype Line = Bullet(text: string) | Verbatim(text: string)

  /** One rendered piece; `key` is the piece's position in the split. */
  datatype Block =
    | Lead(key: nat, text: string)
    | Section(key: nat, header: Option<string>, lines: seq<Line>)
  {
    function Key(): nat {
      match this
      case Lead(k, _) => k
      case Section(k, _, _) => k
    }
  }

  /** A body row: a bullet when the trimmed line starts with '-', showing the
      trimmed text after the dash; otherwise the line as it is. */
  function ParseLine(line: string): Line {
    var t := Trim(line);
    if StartsWith(t, "-") then Bullet(Trim(t[1..])) else Verbatim(line)
  }

  function ParseLines(lines: seq<string>): seq<Line> {
    seq(|lines|, i requires 0 <= i < |lines| => ParseLine(lines[i]))
  }

  /** The rendering of the non-blank piece at position `key`. */
  function RenderPiece(key: nat, piece: string): Block {
    var body := Trim(piece);
    if key == 0 then Lead(0, body)
    else
      var lines := Split(body, "\n");
      var title := Trim(lines[0]);
      var content := Trim(Join(lines[1..], "\n"));
      Section(key, if title != "" then Some(title) else None, ParseLines(Split(content, "\n")))
  }

  /** The positions, from `from` on, of the pieces that are rendered: those
      that do not trim to "" (`if (!section.trim()) return null`). */
  function ShownFrom(pieces: seq<string>, from: nat): (keys: seq<nat>)
    ensures forall i :: 0 <= i < |keys| ==> from <= keys[i] < |pieces| && Shown(pieces[keys[i]])
    ensures forall i, j :: 0 <= i < j < |keys| ==> keys[i] < keys[j]
    decreases |pieces| - from
  {
    if from >= |pieces| then []
    else (if Shown(pieces[from]) then [from] else []) + ShownFrom(pieces, from + 1)
  }

  /** `section.trim()` is truthy exactly when the piece is not blank. */
  predicate Shown(piece: string) {
    !IsBlank(piece)
  }

  lemma ShownIffTrimmed(piece: string)
    ensures Shown(piece) <==> Trim(piece) != ""
  {
    TrimEmptyIffBlank(piece);
  }

  /** The whole preview of a job description: one block per rendered piece. */
  function Preview(jd: string): seq<Block> {
    var pieces := Split(jd, "##");
    var keys := ShownFrom(pieces, 0);
    seq(|keys|, i requires 0 <= i < |keys| => RenderPiece(keys[i], pieces[keys[i]]))
  }

  /** A row is a bullet exactly when its trimmed text starts with '-'; a
      bullet shows what follows the dash, with the whitespace around it cut
      away; other rows keep their text. */
  lemma ParseLineSpec(line: string)
    ensures ParseLine(line).Bullet? <==> StartsWith(Trim(line), "-")
    ensures ParseLine(line).Bullet? ==>
      var t := ParseLine(line).text;
      t == "" || (!IsSpace(t[0]) && !IsSpace(t[|t| - 1]))
    ensures ParseLine(line).Bullet? ==> BulletAfterDash(line, ParseLine(line).text)
    ensures ParseLine(line).Verbatim? ==> ParseLine(line).text == line
  {
    var t := Trim(line);
    if StartsWith(t, "-") {
      TrimEnds(t[1..]);
      BulletText(line);
    }
  }

  /** `text` is the part of `line` after a dash that only whitespace precedes,
      with the whitespace on both sides cut away. */
  predicate BulletAfterDash(line: string, text: string) {
    exists a, b, c :: 0 <= a < b <= c <= |line| && IsBlank(line[..a]) && line[a] == '-'
      && IsBlank(line[a + 1..b]) && IsBlank(line[c..]) && text == line[b..c]
  }

  lemma BulletText(line: string)
    requires StartsWith(Trim(line), "-")
    ensures BulletAfterDash(line, Trim(Trim(line)[1..]))
  {
    var a, b := TrimBounds(line);
    DashAt(line, a, b);
    var u := Trim(line)[1..];
    var a2, b2 := TrimBounds(u);
    DashWitness(line, a, b, a2, b2);
  }

  /** The bounds of the slice that `trim` keeps. */
  lemma TrimBounds(s: string) returns (a: nat, b: nat)
    ensures a <= b <= |s| && Trim(s) == s[a..b] && IsBlank(s[..a]) && IsBlank(s[b..])
  {
    TrimSlice(s);
    a, b :| 0 <= a <= b <= |s| && Trim(s) == s[a..b] && IsBlank(s[..a]) && IsBlank(s[b..]);
  }

  lemma DashAt(line: string, a: nat, b: nat)
    requires a <= b <= |line| && StartsWith(line[a..b], "-")
    ensures a < b && line[a] == '-' && line[a..b][1..] == line[a + 1..b]
  {
    assert line[a..b][0] == line[a];
  }

  lemma DashWitness(line: string, a: nat, b: nat, a2: nat, b2: nat)
    requires a < b <= |line| && line[a] == '-' && IsBlank(line[..a]) && IsBlank(line[b..])
    requires a2 <= b2 <= b - a - 1
    requires IsBlank(line[a + 1..b][..a2]) && IsBlank(line[a + 1..b][b2..])
    ensures BulletAfterDash(line, line[a + 1..b][a2..b2])
  {
    var u := line[a + 1..b];
    SliceOfSlice(line, a + 1, b, 0, a2);
    SliceOfSlice(line, a + 1, b, a2, b2);
    assert line[a + 1 + b2..] == u[b2..] + line[b..];
    BlankConcat(u[b2..], line[b..]);
  }

  lemma SliceOfSlice(s: string, i: nat, j: nat, k: nat, l: nat)
    requires i <= j <= |s| && k <= l <= j - i
    ensures s[i..j][k..l] == s[i + k..i + l]
  {
    forall m | 0 <= m < l - k ensures s[i..j][k..l][m] == s[i + k..i + l][m] {
      assert s[i..j][k + m] == s[i + k + m];
    }
  }

  /** No rendered piece is missed. */
  lemma {:induction false} ShownFromComplete(pieces: seq<string>, from: nat)
    ensures forall k :: from <= k < |pieces| && Shown(pieces[k]) ==> k in ShownFrom(pieces, from)
    decreases |pieces| - from
  {
    if from < |pieces| {
      ShownFromComplete(pieces, from + 1);
    }
  }

  /** Block `i` of the preview renders the `i`-th shown piece: it carries
      that piece's position, is the lead exactly at position 0, and a lead
      shows the piece trimmed. */
  lemma PreviewKeys(jd: string)
    ensures var pieces := Split(jd, "##");
      var keys := ShownFrom(pieces, 0);
      && |Preview(jd)| == |keys|
      && forall i :: 0 <= i < |keys| ==>
           Preview(jd)[i].Key() == keys[i] && (Preview(jd)[i].Lead? <==> keys[i] == 0)
           && (Preview(jd)[i].Lead? ==> Preview(jd)[i].text == Trim(pieces[0]))
  {
    var pieces := Split(jd, "##");
    var keys := ShownFrom(pieces, 0);
    var blocks := Preview(jd);
    forall i | 0 <= i < |keys|
      ensures blocks[i].Key() == keys[i] && (blocks[i].Lead? <==> keys[i] == 0)
      ensures blocks[i].Lead? ==> blocks[i].text == Trim(pieces[0])
    {
      RenderKeys(keys[i], pieces[keys[i]]);
    }
  }

  /** Every block belongs to a non-blank `##` piece; only the first piece is
      shown without a header, as its trimmed text. */
  lemma PreviewShowsNonBlank(jd: string)
    ensures var pieces := Split(jd, "##");
      forall i :: 0 <= i < |Preview(jd)| ==>
        var b := Preview(jd)[i];
        b.Key() < |pieces| && !IsBlank(pieces[b.Key()])
        && (b.Lead? <==> b.Key() == 0)
        && (b.Lead? ==> b.text == Trim(pieces[0]))
  {
    PreviewKeys(jd);
  }

  /** The blocks follow the order of the text. */
  lemma PreviewInTextOrder(jd: string)
    ensures forall i, j :: 0 <= i < j < |Preview(jd)| ==> Preview(jd)[i].Key() < Preview(jd)[j].Key()
  {
    PreviewKeys(jd);
  }

  /** No non-blank piece is left without a block. */
  lemma PreviewMissesNothing(jd: string)
    ensures var pieces := Split(jd, "##");
      forall k :: 0 <= k < |pieces| && !IsBlank(pieces[k]) ==>
        exists i :: 0 <= i < |Preview(jd)| && Preview(jd)[i].Key() == k
  {
    var pieces := Split(jd, "##");
    var keys := ShownFrom(pieces, 0);
    var blocks := Preview(jd);
    PreviewKeys(jd);
    ShownFromComplete(pieces, 0);
    forall k | 0 <= k < |pieces| && !IsBlank(pieces[k])
      ensures exists i :: 0 <= i < |blocks| && blocks[i].Key() == k
    {
      var i :| 0 <= i < |keys| && keys[i] == k;
      assert blocks[i].Key() == k;
    }
  }

  /** Every piece of the split is blank. */
  predicate AllBlank(pieces: seq<string>) {
    forall k :: 0 <= k < |pieces| ==> IsBlank(pieces[k])
  }

  /** The preview is empty exactly when every `##` piece is blank. */
  lemma PreviewEmptyIffBlank(jd: string)
    ensures Preview(jd) == [] <==> AllBlank(Split(jd, "##"))
  {
    var pieces := Split(jd, "##");
    assert |Preview(jd)| == |ShownFrom(pieces, 0)|;
    NoneShownIffAllBlank(pieces);
  }

  lemma NoneShownIffAllBlank(pieces: seq<string>)
    ensures ShownFrom(pieces, 0) == [] <==> AllBlank(pieces)
  {
    if ShownFrom(pieces, 0) != [] {
      SomeShownNotAllBlank(pieces);
    }
    if !AllBlank(pieces) {
      NotAllBlankSomeShown(pieces);
    }
  }

  lemma SomeShownNotAllBlank(pieces: seq<string>)
    requires ShownFrom(pieces, 0) != []
    ensures !AllBlank(pieces)
  {
    var k := ShownFrom(pieces, 0)[0];
    assert 0 <= k < |pieces| && Shown(pieces[k]);
  }

  lemma NotAllBlankSomeShown(pieces: seq<string>)
    requires !AllBlank(pieces)
    ensures ShownFrom(pieces, 0) != []
  {
    var k :| 0 <= k < |pieces| && !IsBlank(pieces[k]);
    ShownFromComplete(pieces, 0);
    assert k in ShownFrom(pieces, 0);
  }

  /** A rendered piece carries its own position, and only position 0 is a lead. */
  lemma RenderKeys(key: nat, piece: string)
    ensures RenderPiece(key, piece).Key() == key
    ensures RenderPiece(key, piece).Lead? <==> key == 0
    ensures RenderPiece(key, piece).Lead? ==> RenderPiece(key, piece).text == Trim(piece)
  {
  }

  /** `j` is where the first line of `body` ends: at its first line break,
      or at its end when it has none. */
  predicate FirstLineEnd(body: string, j: int) {
    0 <= j <= |body| && (j == |body| || body[j] == '\n')
    && forall i :: 0 <= i < j ==> body[i] != '\n'
  }

  /** Every text has exactly one end of its first line. */
  lemma FirstLineEndOf(body: string) returns (j: nat)
    ensures FirstLineEnd(body, j)
    ensures forall j' :: FirstLineEnd(body, j') ==> j' == j
  {
    var k := IndexOf(body, "\n");
    forall i | 0 <= i <= |body| ensures OccursAt(body, "\n", i) <==> i < |body| && body[i] == '\n' {
      OccursAtChar(body, '\n', i);
    }
    j := if k >= 0 then k else |body|;
  }

  /** A later section in terms of its text: with `body` the trimmed piece and
      `j` the end of its first line, the header is that line trimmed (hidden
      when it is empty) and the rows are the lines of what follows the line
      break, trimmed as a whole, each parsed as a bullet or a verbatim row. */
  lemma SectionBody(key: nat, piece: string, j: nat)
    requires key > 0 && FirstLineEnd(Trim(piece), j)
    ensures var body := Trim(piece);
      var title := Trim(body[..j]);
      var rest := if j == |body| then "" else Trim(body[j + 1..]);
      RenderPiece(key, piece) == Section(key, if title != "" then Some(title) else None, ParseLines(Split(rest, "\n")))
  {
    LinesAfterFirst(Trim(piece), j);
  }

  /** Cutting a text into lines: the first line ends at `j`, and the other
      lines joined back together are what follows the line break. */
  lemma LinesAfterFirst(body: string, j: nat)
    requires FirstLineEnd(body, j)
    ensures Split(body, "\n")[0] == body[..j]
    ensures Trim(Join(Split(body, "\n")[1..], "\n")) == if j == |body| then "" else Trim(body[j + 1..])
  {
    if j == |body| {
      SingleLine(body);
    } else {
      LineBreakAt(body, j);
    }
  }

  lemma SingleLine(body: string)
    requires FirstLineEnd(body, |body|)
    ensures Split(body, "\n") == [body]
    ensures Trim(Join([], "\n")) == ""
  {
    SplitWithout(body, '\n');
    EmptyContent();
  }

  lemma LineBreakAt(body: string, j: nat)
    requires FirstLineEnd(body, j) && j < |body|
    ensures Split(body, "\n") == [body[..j]] + Split(body[j + 1..], "\n")
    ensures Join(Split(body[j + 1..], "\n"), "\n") == body[j + 1..]
  {
    FirstBreakIsIndex(body, j);
    SplitAt(body, "\n", j);
    JoinSplit(body[j + 1..], "\n");
  }

  lemma FirstBreakIsIndex(body: string, j: nat)
    requires FirstLineEnd(body, j) && j < |body|
    ensures IndexOf(body, "\n") == j
  {
    var k := IndexOf(body, "\n");
    OccursAtChar(body, '\n', j);
    OccursAtChar(body, '\n', k);
  }

  /** The header of a later section is never hidden: a non-blank piece starts
      with a non-space character, so its first line trims to a non-empty
      header, and that header is a single line with no surrounding whitespace. */
  lemma HeaderAlwaysShown(key: nat, piece: string)
    requires key > 0 && !IsBlank(piece)
    ensures RenderPiece(key, piece).Section?
    ensures RenderPiece(key, piece).header.Some?
    ensures var h := RenderPiece(key, piece).header.value;
      h != "" && !IsSpace(h[0]) && !IsSpace(h[|h| - 1])
      && forall i :: 0 <= i < |h| ==> h[i] != '\n'
  {
    var body := Trim(piece);
    TrimEmptyIffBlank(piece);
    TrimEnds(piece);
    var j := FirstLineEndOf(body);
    HeaderOfBody(body, j);
    SectionBody(key, piece, j);
  }

  /** The trimmed first line of a text that starts with a non-space character. */
  lemma HeaderOfBody(body: string, j: nat)
    requires body != [] && !IsSpace(body[0]) && FirstLineEnd(body, j)
    ensures var h := Trim(body[..j]);
      h != "" && !IsSpace(h[0]) && !IsSpace(h[|h| - 1])
      && forall i :: 0 <= i < |h| ==> h[i] != '\n'
  {
    var first := body[..j];
    assert IsSpace('\n');
    assert j > 0 && first[0] == body[0];
    TrimKeepsFirst(first);
    TrimEnds(first);
    TrimKeepsAbsent(first, '\n');
  }

  /** A later piece that is a single line renders as its header over one empty
      row: the remaining content is "", and splitting "" gives one piece. */
  lemma HeaderOnlySection(key: nat, piece: string)
    requires key > 0 && !IsBlank(piece)
    requires forall i :: 0 <= i < |piece| ==> piece[i] != '\n'
    ensures RenderPiece(key, piece).Section?
    ensures RenderPiece(key, piece).lines == [Verbatim("")]
  {
    var body := Trim(piece);
    TrimKeepsAbsent(piece, '\n');
    assert FirstLineEnd(body, |body|);
    EmptyContent();
    SectionBody(key, piece, |body|);
  }

  lemma EmptyContent()
    ensures Trim(Join([], "\n")) == ""
    ensures Split("", "\n") == [""]
    ensures ParseLines([""]) == [Verbatim("")]
  {
    assert ParseLines([""]) == [ParseLine("")];
  }
}
