/** The note preview: the file name shown for a node, and the splitting of
    paragraph text into plain text and clickable `[[id]]` wikilinks. */
module NodePreview {
  import opened Wrappers
  import opened Strings
  import opened Seqs
  import opened Graph
  import FileTree

  // ---------------------------------------------------------------------------
  // File names

  /** `toSlug(label)`: lower-case, each white-space run becomes one hyphen,
      and every character outside `[a-z0-9-]` is dropped. Existing hyphens
      are neither collapsed nor trimmed. */
  function ToSlug(labelText: string): (slug: string)
    ensures |slug| <= |labelText|
    ensures forall i :: 0 <= i < |slug| ==> IsSlugChar(slug[i])
  {
    Filter(ReplaceRuns(Lower(labelText), IsWhitespace), IsSlugChar)
  }

  /** A string made only of `[a-z0-9-]` is its own slug, and only such
      strings are. */
  lemma ToSlugFixesSlugs(s: string)
    ensures ToSlug(s) == s <==> forall i :: 0 <= i < |s| ==> IsSlugChar(s[i])
  {
    if forall i :: 0 <= i < |s| ==> IsSlugChar(s[i]) {
      LowerNoUpper(s);
      ReplaceRunsIdentity(s, IsWhitespace);
      FilterKeepsAll(s, IsSlugChar);
    }
  }

  /** Slugging a slug changes nothing. */
  lemma ToSlugIdempotent(labelText: string)
    ensures ToSlug(ToSlug(labelText)) == ToSlug(labelText)
  {
    ToSlugFixesSlugs(ToSlug(labelText));
  }

  /** The slug is computed piece by piece, as long as the cut does not
      split a white-space run. */
  lemma ToSlugAppend(a: string, b: string)
    requires !(|a| > 0 && |b| > 0 && IsWhitespace(a[|a| - 1]) && IsWhitespace(b[0]))
    ensures ToSlug(a + b) == ToSlug(a) + ToSlug(b)
  {
    LowerAppend(a, b);
    var la, lb := Lower(a), Lower(b);
    ReplaceRunsAppend(la, lb, IsWhitespace);
    FilterAppend(ReplaceRuns(la, IsWhitespace), ReplaceRuns(lb, IsWhitespace), IsSlugChar);
  }

  /** A white-space run becomes exactly one hyphen. */
  lemma WhitespaceRunIsOneHyphen(w: string)
    requires |w| > 0 && forall i :: 0 <= i < |w| ==> IsWhitespace(w[i])
    ensures ToSlug(w) == "-"
  {
    var lw := Lower(w);
    ReplaceRunsOfRun(lw, IsWhitespace);
    assert Filter("-", IsSlugChar) == "-" by {
      assert "-"[1..] == [];
    }
  }

  /** A white-space run between two pieces becomes one hyphen between
      their slugs. */
  lemma WhitespaceBetween(a: string, w: string, b: string)
    requires |w| > 0 && forall i :: 0 <= i < |w| ==> IsWhitespace(w[i])
    requires |a| > 0 ==> !IsWhitespace(a[|a| - 1])
    requires |b| > 0 ==> !IsWhitespace(b[0])
    ensures ToSlug(a + w + b) == ToSlug(a) + "-" + ToSlug(b)
  {
    var wb := w + b;
    assert ToSlug(wb) == "-" + ToSlug(b) by {
      WhitespaceRunIsOneHyphen(w);
      ToSlugAppend(w, b);
    }
    assert ToSlug(a + wb) == ToSlug(a) + ToSlug(wb) by {
      ToSlugAppend(a, wb);
    }
    ConcatAssoc(a, w, b);
    ConcatAssoc(ToSlug(a), "-", ToSlug(b));
  }

  lemma ConcatAssoc(x: string, y: string, z: string)
    ensures x + (y + z) == x + y + z
  {
  }

  /** A hyphen followed by a white-space run: two hyphens. */
  lemma HyphenBeforeRun(w: char, y: char)
    requires IsLowerAlnum(y) && IsWhitespace(w)
    ensures ToSlug(['-', w, y]) == ['-', '-', y]
  {
    ToSlugFixesSlugs(['-']);
    ToSlugFixesSlugs([y]);
    WhitespaceBetween(['-'], [w], [y]);
    assert ['-'] + [w] + [y] == ['-', w, y];
    assert ['-'] + "-" + [y] == ['-', '-', y];
  }

  /** Hyphens are kept as they are, not merged with the hyphen a white-space
      run becomes: "a - b" gives "a---b", and so does any such shape. */
  lemma HyphensAreNotCollapsed(x: char, w: char, y: char)
    requires IsLowerAlnum(x) && IsLowerAlnum(y) && IsWhitespace(w)
    ensures ToSlug([x, w, '-', w, y]) == [x, '-', '-', '-', y]
  {
    HyphenBeforeRun(w, y);
    ToSlugFixesSlugs([x]);
    WhitespaceBetween([x], [w], ['-', w, y]);
    assert [x] + [w] + ['-', w, y] == [x, w, '-', w, y];
    assert [x] + "-" + ['-', '-', y] == [x, '-', '-', '-', y];
  }

  /** What the slug keeps: every ASCII letter or digit of the label, lower
      cased, in order and as often as it occurs; and every character of the
      slug other than a hyphen comes from the label. */
  lemma ToSlugKeepsAlnums(labelText: string)
    ensures Filter(ToSlug(labelText), IsLowerAlnum) == Filter(Lower(labelText), IsLowerAlnum)
    ensures forall i :: 0 <= i < |labelText| && IsAsciiAlnum(labelText[i])
              ==> LowerChar(labelText[i]) in ToSlug(labelText)
    ensures forall i :: 0 <= i < |ToSlug(labelText)| && ToSlug(labelText)[i] != '-'
              ==> exists j :: 0 <= j < |labelText| && LowerChar(labelText[j]) == ToSlug(labelText)[i]
  {
    var lowered := Lower(labelText);
    var runs := ReplaceRuns(lowered, IsWhitespace);
    ToSlugFilter(labelText);
    ReplaceRunsKeeps(lowered, IsWhitespace);
    FilterMembers(runs, IsSlugChar);
    forall i | 0 <= i < |labelText| && IsAsciiAlnum(labelText[i])
      ensures LowerChar(labelText[i]) in ToSlug(labelText)
    {
      assert lowered[i] in runs;
      var k :| 0 <= k < |runs| && runs[k] == lowered[i];
    }
    forall i | 0 <= i < |ToSlug(labelText)| && ToSlug(labelText)[i] != '-'
      ensures exists j :: 0 <= j < |labelText| && LowerChar(labelText[j]) == ToSlug(labelText)[i]
    {
      var c := ToSlug(labelText)[i];
      assert c in runs;
      assert c in lowered;
      var j :| 0 <= j < |lowered| && lowered[j] == c;
    }
  }

  lemma ToSlugFilter(labelText: string)
    ensures Filter(ToSlug(labelText), IsLowerAlnum) == Filter(Lower(labelText), IsLowerAlnum)
  {
    var lowered := Lower(labelText);
    FilterNested(ReplaceRuns(lowered, IsWhitespace), IsSlugChar, IsLowerAlnum);
    ReplaceRunsFilter(lowered, IsWhitespace, IsLowerAlnum);
  }

  /** A character that is not white space and, lower-cased, is not a
      letter, digit or hyphen is dropped, not turned into a hyphen: with
      ToSlugAppend this fixes the slug of every label. */
  lemma ToSlugDropsOthers(c: char)
    requires !IsWhitespace(c) && !IsSlugChar(LowerChar(c))
    ensures ToSlug([c]) == []
  {
    assert Lower([c]) == [LowerChar(c)];
    assert ReplaceRuns([LowerChar(c)], IsWhitespace) == [LowerChar(c)];
  }

  /** Between two letters or digits such a character leaves no hyphen
      behind: "a!b" gives "ab", and so does any such shape. */
  lemma ToSlugDropsBetween(x: char, c: char, y: char)
    requires IsLowerAlnum(x) && IsLowerAlnum(y)
    requires !IsWhitespace(c) && !IsSlugChar(LowerChar(c))
    ensures ToSlug([x, c, y]) == [x, y]
  {
    assert ToSlug([x, c]) == [x] by {
      ToSlugFixesSlugs([x]);
      ToSlugDropsOthers(c);
      ToSlugAppend([x], [c]);
      assert [x] + [c] == [x, c];
    }
    assert ToSlug([x, c, y]) == [x] + [y] by {
      ToSlugFixesSlugs([y]);
      ToSlugAppend([x, c], [y]);
      assert [x, c] + [y] == [x, c, y];
    }
  }

  /** The file name shown in the tab and the breadcrumb: the label's slug
      with ".md". It depends on the label only, never on the node's id. */
  function DisplayFileName(node: GraphNode): (name: string)
    ensures FileTree.HasMdSuffix(name)
    ensures |name| == |ToSlug(node.labelText)| + 3
    ensures forall i :: 0 <= i < |name| - 3 ==> IsSlugChar(name[i])
  {
    ToSlug(node.labelText) + ".md"
  }

  /** Two nodes with the same label show the same file name whatever their
      ids; and the file tree reads the slug back as the stem of that
      name. */
  lemma DisplayNameIgnoresId(a: GraphNode, b: GraphNode)
    requires a.labelText == b.labelText
    ensures DisplayFileName(a) == DisplayFileName(b)
    ensures FileTree.ToNodeId(DisplayFileName(a)) == ToSlug(a.labelText)
  {
    var name := DisplayFileName(a);
    assert forall i :: 0 <= i < |name| ==> name[i] != '/' by {
      forall i | 0 <= i < |name|
        ensures name[i] != '/'
      {
        if i >= |name| - 3 {
          assert name[i] == ".md"[i - (|name| - 3)];
        }
      }
    }
    FileTree.NoSlashIsOwnSegment(name);
    assert name[..|name| - 3] == ToSlug(a.labelText);
  }

  // ---------------------------------------------------------------------------
  // Wikilinks

  /** A piece of paragraph text: plain text, or a link showing and passing
      on its id. */
  datatype Part = Text(text: string) | Link(id: string)

  /** What `[^\]]+` accepts. */
  predicate IsLinkId(id: string) {
    |id| > 0 && forall i :: 0 <= i < |id| ==> id[i] != ']'
  }

  /** The text a part stands for. */
  function PartText(p: Part): string {
    match p
    case Text(t) => t
    case Link(id) => "[[" + id + "]]"
  }

  /** The parts joined back together. */
  function Render(parts: seq<Part>): string {
    if parts == [] then [] else PartText(parts[0]) + Render(parts[1..])
  }

  lemma {:induction false} RenderAppend(a: seq<Part>, b: seq<Part>)
    ensures Render(a + b) == Render(a) + Render(b)
    decreases |a|
  {
    if a == [] {
      assert a + b == b;
    } else {
      assert (a + b)[1..] == a[1..] + b;
      RenderAppend(a[1..], b);
      calc {
        Render(a + b);
        PartText(a[0]) + Render(a[1..] + b);
        PartText(a[0]) + (Render(a[1..]) + Render(b));
        (PartText(a[0]) + Render(a[1..])) + Render(b);
      }
    }
  }

  /** Index of the first ']' at or after `i`, or `|u|`. */
  function CloseFrom(u: string, i: nat): (k: nat)
    requires i <= |u|
    ensures i <= k <= |u|
    ensures forall j :: i <= j < k ==> u[j] != ']'
    ensures k < |u| ==> u[k] == ']'
    decreases |u| - i
  {
    if i == |u| || u[i] == ']' then i else CloseFrom(u, i + 1)
  }

  /** `w` is a whole match of `\[\[[^\]]+\]\]`. */
  predicate IsLinkText(w: string) {
    |w| >= 5 && w[..2] == "[[" && w[|w| - 2..] == "]]" && IsLinkId(w[2..|w| - 2])
  }

  /** The first `m` characters of `u` are a whole match. */
  predicate MatchesFor(u: string, m: nat) {
    m <= |u| && IsLinkText(u[..m])
  }

  /** The first ']' at or after `i` is the one at `k`. */
  lemma {:induction false} CloseFromFirst(u: string, i: nat, k: nat)
    requires i <= k < |u| && u[k] == ']'
    requires forall j :: i <= j < k ==> u[j] != ']'
    ensures CloseFrom(u, i) == k
    decreases k - i
  {
    if i < k {
      CloseFromFirst(u, i + 1, k);
    }
  }

  /** Any match at the start of `u` opens with "[[", and its id ends at the
      first ']' after them, which is doubled. */
  lemma LinkTextPinned(u: string)
    ensures forall m: nat {:trigger MatchesFor(u, m)} :: MatchesFor(u, m) ==>
              5 <= m && u[0] == '[' && u[1] == '[' && CloseFrom(u, 2) == m - 2 && u[m - 1] == ']'
  {
    forall m: nat | MatchesFor(u, m)
      ensures 5 <= m && u[0] == '[' && u[1] == '[' && CloseFrom(u, 2) == m - 2 && u[m - 1] == ']'
    {
      var w := u[..m];
      assert w[..2][0] == u[0] && w[..2][1] == u[1];
      assert w[m - 2..][0] == u[m - 2] && w[m - 2..][1] == u[m - 1];
      var id := w[2..m - 2];
      assert forall j :: 2 <= j < m - 2 ==> u[j] == id[j - 2];
      CloseFromFirst(u, 2, m - 2);
    }
  }

  /** `[[id]]` where the id runs from index 2 up to the first ']'. */
  lemma LinkTextAt(u: string, k: nat)
    requires 2 < k && k + 1 < |u| && u[0] == '[' && u[1] == '[' && u[k] == ']' && u[k + 1] == ']'
    requires forall j :: 2 <= j < k ==> u[j] != ']'
    ensures MatchesFor(u, k + 2)
  {
    var w := u[..k + 2];
    assert w[..2] == "[[";
    assert w[k..] == "]]";
    assert forall i :: 0 <= i < k - 2 ==> w[2..k][i] == u[2 + i];
  }

  /** The length of the match of `\[\[[^\]]+\]\]` at the start of `u`, if
      there is one. */
  function LinkAt(u: string): (n: Option<nat>)
    ensures n.Some? ==> MatchesFor(u, n.value)
  {
    if |u| >= 2 && u[0] == '[' && u[1] == '[' then
      var k := CloseFrom(u, 2);
      if k > 2 && k + 1 < |u| && u[k + 1] == ']' then
        LinkTextAt(u, k);
        Some(k + 2)
      else
        None
    else
      None
  }

  /** There is at most one match at the start of `u`, and `LinkAt` finds
      it: the id runs up to the first ']', which must be doubled. */
  lemma LinkAtFinds(u: string, m: nat)
    requires MatchesFor(u, m)
    ensures LinkAt(u) == Some(m)
  {
    LinkTextPinned(u);
  }

  /** `split(/(\[\[[^\]]+\]\])/g)` with the kept separators: scanning left
      to right, a link starting at the current position is cut out,
      otherwise the character joins the pending text. */
  function Scan(u: string, pending: string): (parts: seq<Part>)
    ensures Render(parts) == pending + u
    decreases |u|
  {
    if u == [] then
      assert Render([Text(pending)]) == pending + u by {
        assert [Text(pending)][1..] == [];
      }
      [Text(pending)]
    else match LinkAt(u)
      case Some(n) =>
        var tail := Scan(u[n..], "");
        assert Render(tail) == u[n..] by {
          assert "" + u[n..] == u[n..];
        }
        LinkPartsRender(u, n, tail);
        ScanLinkRender(pending, Link(u[2..n - 2]), tail);
        [Text(pending), Link(u[2..n - 2])] + tail
      case None =>
        assert (pending + [u[0]]) + u[1..] == pending + u;
        Scan(u[1..], pending + [u[0]])
  }

  lemma ScanLinkRender(pending: string, link: Part, tail: seq<Part>)
    ensures Render([Text(pending), link] + tail) == pending + Render([link] + tail)
  {
    assert ([Text(pending), link] + tail)[1..] == [link] + tail;
  }

  /** Texts at even positions, links with well-formed ids at odd ones, and a
      text at both ends. */
  predicate Alternating(parts: seq<Part>) {
    && |parts| % 2 == 1
    && forall i :: 0 <= i < |parts| ==>
         (parts[i].Text? <==> i % 2 == 0) && (parts[i].Link? ==> IsLinkId(parts[i].id))
  }

  /** No match of the link pattern starts anywhere inside `t` when `t` is
      followed by `rest`. */
  predicate LinkFree(t: string, rest: string) {
    forall q :: 0 <= q < |t| ==> LinkAt(t[q..] + rest).None?
  }

  /** The leftmost-match decomposition: alternating, and no text part hides
      the start of a link. */
  predicate Canonical(parts: seq<Part>) {
    && Alternating(parts)
    && forall i :: 0 <= i < |parts| && i % 2 == 0 ==> LinkFree(parts[i].text, Render(parts[i + 1..]))
  }

  /** `processWikilinks(text)`, as the list of parts it renders. */
  function ProcessWikilinks(text: string): (parts: seq<Part>)
    ensures Canonical(parts)
    ensures Render(parts) == text
  {
    ScanCanonical(text, "");
    Scan(text, "")
  }

  lemma {:induction false} ScanCanonical(u: string, pending: string)
    requires LinkFree(pending, u)
    ensures Canonical(Scan(u, pending)) && Render(Scan(u, pending)) == pending + u
    decreases |u|
  {
    if u == [] {
      ScanEnd(pending);
    } else {
      match LinkAt(u)
      case Some(n) =>
        ScanCanonical(u[n..], "");
        ScanLinkStep(u, pending, n);
      case None =>
        LinkFreeShift(pending, u);
        ScanCanonical(u[1..], pending + [u[0]]);
        ScanTextStep(u, pending);
    }
  }

  lemma ScanEnd(pending: string)
    requires LinkFree(pending, [])
    ensures Canonical(Scan([], pending)) && Render(Scan([], pending)) == pending + []
  {
    var parts := Scan([], pending);
    assert parts == [Text(pending)];
    assert Render(parts[1..]) == [];
    assert pending + [] == pending;
    assert Render(parts) == PartText(parts[0]) + Render(parts[1..]);
  }

  /** When no link starts at the front of `u`, its first character can join
      the pending text without hiding a link start. */
  lemma LinkFreeShift(pending: string, u: string)
    requires u != [] && LinkAt(u).None? && LinkFree(pending, u)
    ensures LinkFree(pending + [u[0]], u[1..])
    ensures (pending + [u[0]]) + u[1..] == pending + u
  {
    var next := pending + [u[0]];
    forall q | 0 <= q < |next|
      ensures LinkAt(next[q..] + u[1..]).None?
    {
      if q < |pending| {
        assert next[q..] + u[1..] == pending[q..] + u;
      } else {
        assert next[q..] + u[1..] == u;
      }
    }
    assert next + u[1..] == pending + u;
  }

  lemma {:induction false} ScanLinkStep(u: string, pending: string, n: nat)
    requires u != [] && LinkAt(u) == Some(n)
    requires LinkFree(pending, u)
    requires Canonical(Scan(u[n..], ""))
    ensures Canonical(Scan(u, pending)) && Render(Scan(u, pending)) == pending + u
  {
    var id := u[2..n - 2];
    var tail := Scan(u[n..], "");
    ScanLinkUnfold(u, pending, n);
    assert "" + u[n..] == u[n..];
    LinkPartsRender(u, n, tail);
    ConsCanonical(pending, id, tail);
  }

  /** A link cut from the front of `u`, followed by parts rendering the
      rest of `u`, renders `u`. */
  lemma LinkPartsRender(u: string, n: nat, tail: seq<Part>)
    requires MatchesFor(u, n) && Render(tail) == u[n..]
    ensures IsLinkId(u[2..n - 2])
    ensures Render([Link(u[2..n - 2])] + tail) == u
  {
    var w := u[..n];
    var id := u[2..n - 2];
    assert IsLinkText(w);
    assert w[2..n - 2] == id;
    assert "[[" + id + "]]" == w by {
      assert w[..2] == "[[" && w[n - 2..] == "]]";
      assert w == w[..2] + w[2..n - 2] + w[n - 2..];
    }
    var parts := [Link(id)] + tail;
    assert parts[0] == Link(id) && parts[1..] == tail;
    assert Render(parts) == w + u[n..] by {
      assert Render(parts) == PartText(parts[0]) + Render(parts[1..]);
    }
    assert w + u[n..] == u;
  }

  /** A text free of link starts, then a link, in front of a canonical
      decomposition, is canonical, and renders as the text followed by the
      rest. */
  lemma ConsCanonical(t: string, id: string, tail: seq<Part>)
    requires Canonical(tail) && IsLinkId(id)
    requires LinkFree(t, Render([Link(id)] + tail))
    ensures Canonical([Text(t), Link(id)] + tail)
    ensures Render([Text(t), Link(id)] + tail) == t + Render([Link(id)] + tail)
  {
    var parts := [Text(t), Link(id)] + tail;
    assert parts[1..] == [Link(id)] + tail;
    forall i | 0 <= i < |parts|
      ensures (parts[i].Text? <==> i % 2 == 0) && (parts[i].Link? ==> IsLinkId(parts[i].id))
    {
      if i >= 2 { assert parts[i] == tail[i - 2]; }
    }
    forall i | 0 <= i < |parts| && i % 2 == 0
      ensures LinkFree(parts[i].text, Render(parts[i + 1..]))
    {
      if i >= 2 {
        assert parts[i] == tail[i - 2];
        assert parts[i + 1..] == tail[i - 1..];
      }
    }
  }

  /** The split is the only canonical decomposition of the text: a list of
      parts is what `processWikilinks` produces exactly when it is
      canonical and renders the text. */
  lemma ProcessWikilinksUnique(text: string, parts: seq<Part>)
    ensures parts == ProcessWikilinks(text) <==> Canonical(parts) && Render(parts) == text
  {
    if Canonical(parts) && Render(parts) == text {
      RenderFirst(parts);
      ScanUnique(parts, text, "", parts[0].text);
    }
  }

  lemma RenderFirst(parts: seq<Part>)
    requires parts != []
    ensures Render(parts) == PartText(parts[0]) + Render(parts[1..])
  {
  }

  /** `[[id]]` is a whole match for any well-formed id. */
  lemma LinkTextOf(id: string)
    requires IsLinkId(id)
    ensures IsLinkText("[[" + id + "]]")
  {
    var w := "[[" + id + "]]";
    assert w[..2] == "[[";
    assert w[|w| - 2..] == "]]";
    assert w[2..|w| - 2] == id;
  }

  /** Dropping the leading text and link of a canonical list leaves a
      canonical list. */
  lemma CanonicalDropTwo(parts: seq<Part>)
    requires Canonical(parts) && |parts| >= 3
    ensures Canonical(parts[2..])
  {
    var rest := parts[2..];
    forall i | 0 <= i < |rest| && i % 2 == 0
      ensures LinkFree(rest[i].text, Render(rest[i + 1..]))
    {
      assert rest[i] == parts[i + 2];
      assert rest[i + 1..] == parts[i + 3..];
    }
  }

  /** Scanning `u` with `pending` already read rebuilds any canonical list
      whose first text is `pending` followed by a prefix `v` of `u`. */
  lemma {:induction false} ScanUnique(parts: seq<Part>, u: string, pending: string, v: string)
    requires Canonical(parts)
    requires parts[0].text == pending + v
    requires v + Render(parts[1..]) == u
    ensures Scan(u, pending) == parts
    decreases |u|, 1
  {
    if v != [] {
      ScanUniqueText(parts, u, pending, v);
    } else if |parts| == 1 {
      assert parts[0].Text? && pending + v == pending;
      assert Render(parts[1..]) == [];
      assert parts == [Text(pending)];
    } else {
      ScanUniqueLink(parts, u, pending);
    }
  }

  lemma {:induction false} ScanUniqueText(parts: seq<Part>, u: string, pending: string, v: string)
    requires Canonical(parts) && v != []
    requires parts[0].text == pending + v
    requires v + Render(parts[1..]) == u
    ensures Scan(u, pending) == parts
    decreases |u|, 0
  {
    var rest := Render(parts[1..]);
    ShiftOne(pending, v, rest, u);
    assert LinkAt(u).None? by {
      CanonicalHead(parts);
      LinkFreeAt(pending + v, rest, |pending|);
    }
    ScanTextStep(u, pending);
    ScanUnique(parts, u[1..], pending + [u[0]], v[1..]);
  }

  /** Moving one character from the unread input to the pending text. */
  lemma ShiftOne(pending: string, v: string, rest: string, u: string)
    requires v != [] && v + rest == u
    ensures u != [] && pending + v == (pending + [u[0]]) + v[1..]
    ensures v[1..] + rest == u[1..]
    ensures (pending + v)[|pending|..] + rest == u
  {
    assert v == [u[0]] + v[1..];
    ConcatAssoc(pending, [u[0]], v[1..]);
    assert (pending + v)[|pending|..] == v;
  }

  lemma ScanTextStep(u: string, pending: string)
    requires u != [] && LinkAt(u).None?
    ensures Scan(u, pending) == Scan(u[1..], pending + [u[0]])
  {
  }

  lemma {:induction false} ScanUniqueLink(parts: seq<Part>, u: string, pending: string)
    requires Canonical(parts) && |parts| > 1
    requires parts[0].text == pending
    requires Render(parts[1..]) == u
    ensures Scan(u, pending) == parts
    decreases |u|, 0
  {
    var id := parts[1].id;
    var rest := parts[2..];
    var after := Render(rest);
    LinkHead(parts);
    LinkFront(id, after);
    ScanLinkUnfold(u, pending, |id| + 4);
    TextHead(rest);
    ScanUnique(rest, after, "", rest[0].text);
  }

  /** The shape of a canonical list past its first text. */
  lemma LinkHead(parts: seq<Part>)
    requires Canonical(parts) && |parts| > 1
    ensures |parts| >= 3 && parts[1].Link? && IsLinkId(parts[1].id)
    ensures parts == [Text(parts[0].text), Link(parts[1].id)] + parts[2..]
    ensures Render(parts[1..]) == "[[" + parts[1].id + "]]" + Render(parts[2..])
    ensures Canonical(parts[2..])
  {
    RenderFirst(parts[1..]);
    assert parts[1..][1..] == parts[2..];
    CanonicalDropTwo(parts);
  }

  /** The first text of a canonical list, with nothing pending before it. */
  lemma TextHead(parts: seq<Part>)
    requires Canonical(parts)
    ensures parts[0].Text? && parts[0].text == "" + parts[0].text
    ensures parts[0].text + Render(parts[1..]) == Render(parts)
  {
    RenderFirst(parts);
  }

  /** A link written at the front of a text is the match found there. */
  lemma LinkFront(id: string, after: string)
    requires IsLinkId(id)
    ensures var u := "[[" + id + "]]" + after;
            && LinkAt(u) == Some(|id| + 4) && u[2..|id| + 2] == id && u[|id| + 4..] == after
  {
    var u := "[[" + id + "]]" + after;
    assert u[..|id| + 4] == "[[" + id + "]]";
    LinkTextOf(id);
    LinkAtFinds(u, |id| + 4);
  }

  lemma ScanLinkUnfold(u: string, pending: string, n: nat)
    requires u != [] && LinkAt(u) == Some(n)
    ensures Scan(u, pending) == [Text(pending), Link(u[2..n - 2])] + Scan(u[n..], "")
  {
    assert LinkAt(u).Some? && LinkAt(u).value == n;
  }

  lemma CanonicalHead(parts: seq<Part>)
    requires Canonical(parts)
    ensures parts[0].Text? && LinkFree(parts[0].text, Render(parts[1..]))
  {
  }

  lemma LinkFreeAt(t: string, rest: string, q: nat)
    requires LinkFree(t, rest) && q < |t|
    ensures LinkAt(t[q..] + rest).None?
  {
  }

  /** When no link starts at the front of `u`, no prefix of `u` is a whole
      match. */
  lemma NoLinkNoMatch(u: string, m: nat)
    requires LinkAt(u).None?
    ensures !MatchesFor(u, m)
  {
    LinkTextPinned(u);
  }

  /** A text part of the split never matches the link pattern as a whole. */
  lemma TextNeverMatches(t: string, rest: string)
    requires LinkFree(t, rest)
    ensures !IsLinkText(t)
  {
    if |t| > 0 {
      LinkFreeAt(t, rest, 0);
      assert t[0..] + rest == t + rest;
      NoLinkNoMatch(t + rest, |t|);
      assert (t + rest)[..|t|] == t;
    }
  }

  /** `part.match(/^\[\[([^\]]+)\]\]$/)`: the captured id when the whole
      part is a link. */
  function Captured(part: string): (id: Option<string>)
    ensures id.Some? <==> IsLinkText(part)
    ensures id.Some? ==> "[[" + id.value + "]]" == part
  {
    if IsLinkText(part) then
      assert part == part[..2] + part[2..|part| - 2] + part[|part| - 2..];
      Some(part[2..|part| - 2])
    else None
  }

  /** What `processWikilinks` puts in the paragraph for one string of the
      split: a button for the captured id, or the string itself. */
  datatype Piece = Button(key: nat, linkId: string) | Fragment(key: nat, text: string)

  /** The id handed to `onWikilinkClick` when the piece is clicked. */
  function Click(p: Piece): Option<string> {
    if p.Button? then Some(p.linkId) else None
  }

  function PieceFor(key: nat, part: string): Piece {
    match Captured(part)
    case Some(id) => Button(key, id)
    case None => Fragment(key, part)
  }

  /** The mapped pieces of `processWikilinks(text)`, keyed by position. */
  function Pieces(text: string): (pieces: seq<Piece>)
    ensures |pieces| == |ProcessWikilinks(text)|
  {
    var parts := ProcessWikilinks(text);
    seq(|parts|, i requires 0 <= i < |parts| => PieceFor(i, PartText(parts[i])))
  }

  /** The buttons are exactly the captured separators: piece `i` is a button
      iff part `i` is a link, clicking it passes that link's id, and every
      other piece shows its text unchanged. */
  lemma PiecesFollowParts(text: string, i: nat)
    requires i < |ProcessWikilinks(text)|
    ensures var part := ProcessWikilinks(text)[i];
            var piece := Pieces(text)[i];
            && piece.key == i
            && (piece.Button? <==> part.Link?)
            && (part.Link? ==> Click(piece) == Some(part.id))
            && (part.Text? ==> piece == Fragment(i, part.text) && Click(piece).None?)
  {
    var parts := ProcessWikilinks(text);
    if parts[i].Link? {
      LinkTextOf(parts[i].id);
    } else {
      TextNeverMatches(parts[i].text, Render(parts[i + 1..]));
    }
  }

  /** Empty brackets are not a link: `[^\]]+` needs at least one character. */
  lemma EmptyBracketsStayText()
    ensures ProcessWikilinks("[[]]") == [Text("[[]]")]
  {
    ProcessWikilinksUnique("[[]]", [Text("[[]]")]);
  }

  /** Every whole match ends in "]]", so a string without that pair
      has none at its front. */
  lemma NoClosePairNoMatch(u: string, m: nat)
    requires forall i :: 0 <= i < |u| - 1 ==> !(u[i] == ']' && u[i + 1] == ']')
    ensures !MatchesFor(u, m)
  {
    if 2 <= m <= |u| {
      assert u[..m][m - 2] == u[m - 2] && u[..m][m - 1] == u[m - 1];
    }
  }

  /** A text without a closing "]]" pair is never split: an opening
      without its closing pair ("[[", "[[a]") stays text, and nothing
      fails. */
  lemma NoClosePairStaysText(t: string)
    requires forall i :: 0 <= i < |t| - 1 ==> !(t[i] == ']' && t[i + 1] == ']')
    ensures ProcessWikilinks(t) == [Text(t)]
  {
    NoClosePairLinkFree(t);
    SingleTextCanonical(t);
    ProcessWikilinksUnique(t, [Text(t)]);
  }

  lemma NoClosePairLinkFree(t: string)
    requires forall i :: 0 <= i < |t| - 1 ==> !(t[i] == ']' && t[i + 1] == ']')
    ensures LinkFree(t, [])
  {
    forall q | 0 <= q < |t|
      ensures LinkAt(t[q..] + []).None?
    {
      var u := t[q..] + [];
      assert forall i :: 0 <= i < |u| ==> u[i] == t[q + i];
      NoClosePairNoMatch(u, LinkAt(u).GetOr(0));
    }
  }

  /** A text in which no link starts is split into itself. */
  lemma SingleTextCanonical(t: string)
    requires LinkFree(t, [])
    ensures Canonical([Text(t)]) && Render([Text(t)]) == t
  {
    var parts := [Text(t)];
    assert parts[1..] == [];
    assert Render(parts) == t + [];
  }

  /** A third opening bracket belongs to the id. */
  lemma ExtraBracketJoinsId()
    ensures ProcessWikilinks("[[[a]]") == [Text(""), Link("[a"), Text("")]
  {
    var u := "[[[a]]";
    LinkTextOf("[a");
    assert u[..6] == "[[" + "[a" + "]]";
    LinkAtFinds(u, 6);
    assert u[2..4] == "[a" && u[6..] == [];
  }

  predicate IsLinkPart(p: Part) {
    p.Link?
  }

  /** An alternating list with `k` links has `2k + 1` parts. */
  lemma {:induction false} AlternatingLinkCount(parts: seq<Part>)
    requires Alternating(parts)
    ensures |parts| == 2 * Count(parts, IsLinkPart) + 1
    decreases |parts|
  {
    if |parts| > 1 {
      var rest := parts[2..];
      forall i | 0 <= i < |rest|
        ensures (rest[i].Text? <==> i % 2 == 0) && (rest[i].Link? ==> IsLinkId(rest[i].id))
      {
        assert rest[i] == parts[i + 2];
      }
      AlternatingLinkCount(rest);
      assert parts[1..][1..] == rest;
    }
  }

  /** `processWikilinks` on a text with `k` links yields `2k + 1` parts. */
  lemma WikilinkPartCount(text: string)
    ensures |ProcessWikilinks(text)| == 2 * Count(ProcessWikilinks(text), IsLinkPart) + 1
  {
    AlternatingLinkCount(ProcessWikilinks(text));
  }
}
