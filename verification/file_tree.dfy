/** The explorer panel: the folder row labelled with the topic's slug, and
    one row per generated file, the index note's file first and the rest
    in order of node id. A file is tied to its node by the stem of its
    path. */
module FileTree {
  import opened Wrappers
  import opened Strings
  import opened Graph
  import opened Seqs

  // ---------------------------------------------------------------------------
  // From a file path to a node id

  /** Index of the last '/' in `path`, or -1 when there is none. */
  function LastSlash(path: string): (k: int)
    ensures -1 <= k < |path|
    ensures k >= 0 ==> path[k] == '/'
    ensures forall j :: k < j < |path| ==> path[j] != '/'
  {
    if path == [] then -1
    else if path[|path| - 1] == '/' then |path| - 1
    else LastSlash(path[..|path| - 1])
  }

  /** `path.split("/").pop()`: everything after the last '/', or the whole
      path when it has none. `split` always returns at least one piece, so
      the `?? filePath` fallback never applies. */
  function LastSegment(path: string): (name: string)
    ensures |name| <= |path| && name == path[|path| - |name|..]
    ensures forall i :: 0 <= i < |name| ==> name[i] != '/'
    ensures |name| < |path| ==> path[|path| - |name| - 1] == '/'
  {
    path[LastSlash(path) + 1..]
  }

  predicate HasMdSuffix(name: string) {
    |name| >= 3 && name[|name| - 3..] == ".md"
  }

  /** `name.replace(/\.md$/, "")`: one trailing ".md" removed, if present;
      the stem is a prefix of the name. */
  function StripMd(name: string): (stem: string)
    ensures |stem| == if HasMdSuffix(name) then |name| - 3 else |name|
    ensures forall i :: 0 <= i < |stem| ==> stem[i] == name[i]
  {
    if HasMdSuffix(name) then name[..|name| - 3] else name
  }

  /** Putting the ".md" back gives the name again. */
  lemma StripMdRestores(name: string)
    ensures HasMdSuffix(name) ==> StripMd(name) + ".md" == name
    ensures !HasMdSuffix(name) ==> StripMd(name) == name
  {
    if HasMdSuffix(name) {
      assert name == name[..|name| - 3] + name[|name| - 3..];
    }
  }

  /** `toNodeId(filePath)`: the last path segment without its ".md". */
  function ToNodeId(path: string): (id: string)
    ensures forall i :: 0 <= i < |id| ==> id[i] != '/'
    ensures |id| <= |path|
  {
    StripMd(LastSegment(path))
  }

  /** The last segment of `prefix + "/" + name`, for a name with no '/', is
      that name. */
  lemma LastSegmentAfterSlash(prefix: string, name: string)
    requires forall i :: 0 <= i < |name| ==> name[i] != '/'
    ensures LastSegment(prefix + "/" + name) == name
  {
    var path := prefix + "/" + name;
    assert path[|prefix|] == '/';
    assert forall j :: |prefix| < j < |path| ==> path[j] == name[j - |prefix| - 1];
    assert LastSlash(path) == |prefix|;
    assert path[|prefix| + 1..] == name;
  }

  /** `toNodeId` undoes `<folder>/<id>.md` for every id without a '/'. */
  lemma ToNodeIdInverse(folder: string, id: string)
    requires forall i :: 0 <= i < |id| ==> id[i] != '/'
    ensures ToNodeId(folder + "/" + id + ".md") == id
  {
    var name := id + ".md";
    assert forall i :: 0 <= i < |name| ==> name[i] != '/' by {
      forall i | 0 <= i < |name|
        ensures name[i] != '/'
      {
        if i >= |id| {
          assert name[i] == ".md"[i - |id|];
        }
      }
    }
    assert folder + "/" + id + ".md" == folder + "/" + name;
    LastSegmentAfterSlash(folder, name);
    assert name[..|name| - 3] == id;
  }

  /** Only one ".md" is removed: a stem that itself ends in ".md" keeps
      it. */
  lemma OnlyOneMdStripped(folder: string, stem: string)
    requires forall i :: 0 <= i < |stem| ==> stem[i] != '/'
    requires HasMdSuffix(stem)
    ensures ToNodeId(folder + "/" + stem + ".md") == stem
    ensures HasMdSuffix(ToNodeId(folder + "/" + stem + ".md"))
  {
    ToNodeIdInverse(folder, stem);
  }

  /** A last segment without the ".md" suffix is the id unchanged. */
  lemma NoSuffixKept(folder: string, name: string)
    requires forall i :: 0 <= i < |name| ==> name[i] != '/'
    requires !HasMdSuffix(name)
    ensures ToNodeId(folder + "/" + name) == name
  {
    LastSegmentAfterSlash(folder, name);
  }

  /** A path without '/' is its own last segment. */
  lemma NoSlashIsOwnSegment(p: string)
    requires forall i :: 0 <= i < |p| ==> p[i] != '/'
    ensures LastSegment(p) == p
  {
    assert LastSlash(p) == -1;
  }

  // ---------------------------------------------------------------------------
  // The folder label

  predicate NotLowerAlnum(c: char) {
    !IsLowerAlnum(c)
  }

  /** 1 when `s` starts with a hyphen, else 0. */
  function LeadHyphen(s: string): nat {
    if |s| > 0 && s[0] == '-' then 1 else 0
  }

  /** `replace(/(^-|-$)/g, "")`: a leading hyphen is dropped, then a
      trailing hyphen of what remains. The result is the piece of `s` left
      after removing at most one hyphen from each end. */
  function TrimHyphens(s: string): (r: string)
    ensures LeadHyphen(s) + |r| <= |s| && r == s[LeadHyphen(s)..LeadHyphen(s) + |r|]
    ensures |s| - |r| - LeadHyphen(s) <= 1
    ensures LeadHyphen(s) + |r| < |s| ==> s[|s| - 1] == '-'
    ensures LeadHyphen(s) < |s| && s[|s| - 1] == '-' ==> LeadHyphen(s) + |r| == |s| - 1
  {
    var t := s[LeadHyphen(s)..];
    if |t| > 0 && t[|t| - 1] == '-' then t[..|t| - 1] else t
  }

  /** The folder label: the topic lower-cased, every run of characters
      outside `[a-z0-9]` replaced by one hyphen, and a hyphen at either end
      removed. */
  function TopicSlug(topic: string): (slug: string)
    ensures IsTopicSlug(slug)
  {
    var runs := ReplaceRuns(Lower(topic), NotLowerAlnum);
    ReplaceRunsSingleHyphens(Lower(topic), NotLowerAlnum);
    var slug := TrimHyphens(runs);
    SliceKeepsSlugShape(runs, slug);
    slug
  }

  /** What makes a string a topic slug: only `[a-z0-9-]`, no two hyphens
      in a row, and no hyphen at either end. */
  predicate IsTopicSlug(s: string) {
    && (forall i :: 0 <= i < |s| ==> IsSlugChar(s[i]))
    && (forall i :: 0 <= i < |s| - 1 ==> !(s[i] == '-' && s[i + 1] == '-'))
    && (s != [] ==> s[0] != '-' && s[|s| - 1] != '-')
  }

  /** Trimming the hyphens at the ends of a string of lower-case letters,
      digits and lone hyphens gives a slug. */
  lemma SliceKeepsSlugShape(runs: string, slug: string)
    requires forall i :: 0 <= i < |runs| ==> runs[i] == '-' || !NotLowerAlnum(runs[i])
    requires forall i :: 0 <= i < |runs| - 1 && runs[i] == '-' ==> !NotLowerAlnum(runs[i + 1])
    requires slug == TrimHyphens(runs)
    ensures IsTopicSlug(slug)
  {
    var lo := LeadHyphen(runs);
    assert forall i :: 0 <= i < |slug| ==> slug[i] == runs[lo + i];
    if slug != [] && lo == 1 {
      assert runs[0] == '-';
    }
  }

  /** The topic slug is a slug, and slugging it again changes nothing. */
  lemma TopicSlugIdempotent(topic: string)
    ensures IsTopicSlug(TopicSlug(topic))
    ensures TopicSlug(TopicSlug(topic)) == TopicSlug(topic)
  {
    var s := TopicSlug(topic);
    assert Lower(s) == s by {
      LowerNoUpper(s);
    }
    assert ReplaceRuns(s, NotLowerAlnum) == s by {
      ReplaceRunsIdentity(s, NotLowerAlnum);
    }
    assert TrimHyphens(s) == s by {
      assert LeadHyphen(s) == 0;
    }
  }

  /** The slug is empty exactly when the topic has no ASCII letter or
      digit. */
  lemma TopicSlugEmpty(topic: string)
    ensures TopicSlug(topic) == [] <==> forall i :: 0 <= i < |topic| ==> !IsAsciiAlnum(topic[i])
  {
    var lowered := Lower(topic);
    var runs := ReplaceRuns(lowered, NotLowerAlnum);
    if forall i :: 0 <= i < |topic| ==> !IsAsciiAlnum(topic[i]) {
      if topic != [] {
        assert forall i :: 0 <= i < |lowered| ==> NotLowerAlnum(lowered[i]);
        ReplaceRunsOfRun(lowered, NotLowerAlnum);
        assert runs == "-";
      }
    } else {
      var i :| 0 <= i < |topic| && IsAsciiAlnum(topic[i]);
      assert !NotLowerAlnum(lowered[i]);
      ReplaceRunsKeeps(lowered, NotLowerAlnum);
      assert lowered[i] in runs;
      TrimHyphensKeeps(runs, lowered[i]);
    }
  }

  /** Trimming hyphens keeps every character other than a hyphen. */
  lemma TrimHyphensKeeps(s: string, c: char)
    requires c in s && c != '-'
    ensures c in TrimHyphens(s)
  {
    var k :| 0 <= k < |s| && s[k] == c;
    var t := if |s| > 0 && s[0] == '-' then s[1..] else s;
    var j := if |s| > 0 && s[0] == '-' then k - 1 else k;
    assert t[j] == c;
  }

  /** Trimming hyphens loses no letter or digit. */
  lemma TrimHyphensFilter(s: string)
    ensures Filter(TrimHyphens(s), IsLowerAlnum) == Filter(s, IsLowerAlnum)
  {
    var r := TrimHyphens(s);
    var lo := LeadHyphen(s);
    var hi := lo + |r|;
    assert s == s[..lo] + r + s[hi..];
    FilterAppend(s[..lo] + r, s[hi..], IsLowerAlnum);
    FilterAppend(s[..lo], r, IsLowerAlnum);
    FilterSkips(s[..lo], IsLowerAlnum, lo);
    FilterSkips(s[hi..], IsLowerAlnum, |s| - hi);
  }

  /** The folder label keeps every letter and digit of the lower-cased
      topic, in order, and adds none: only the hyphens differ. */
  lemma TopicSlugKeepsAlnums(topic: string)
    ensures Filter(TopicSlug(topic), IsLowerAlnum) == Filter(Lower(topic), IsLowerAlnum)
  {
    var lowered := Lower(topic);
    ReplaceRunsFilter(lowered, NotLowerAlnum, IsLowerAlnum);
    TrimHyphensFilter(ReplaceRuns(lowered, NotLowerAlnum));
  }

  /** A word of ASCII letters and digits is lower-cased and otherwise kept. */
  lemma WordRuns(a: string)
    requires forall i :: 0 <= i < |a| ==> IsAsciiAlnum(a[i])
    ensures ReplaceRuns(Lower(a), NotLowerAlnum) == Lower(a)
    ensures forall i :: 0 <= i < |a| ==> IsLowerAlnum(Lower(a)[i])
  {
    ReplaceRunsIdentity(Lower(a), NotLowerAlnum);
  }

  /** A non-empty gap without ASCII letters or digits becomes one hyphen. */
  lemma GapRuns(w: string)
    requires |w| > 0 && forall i :: 0 <= i < |w| ==> !IsAsciiAlnum(w[i])
    ensures ReplaceRuns(Lower(w), NotLowerAlnum) == "-"
  {
    ReplaceRunsOfRun(Lower(w), NotLowerAlnum);
  }

  /** Hyphen trimming removes exactly the given end hyphens from a string
      that otherwise neither starts nor ends with one. */
  lemma TrimHyphensAround(x: string, lead: bool, trail: bool)
    requires |x| > 0 && x[0] != '-' && x[|x| - 1] != '-'
    ensures TrimHyphens((if lead then "-" else "") + x + (if trail then "-" else "")) == x
  {
    var h1: string := if lead then "-" else "";
    var h2: string := if trail then "-" else "";
    var s := h1 + x + h2;
    assert s[|s| - 1] == if trail then '-' else x[|x| - 1];
    assert LeadHyphen(s) == |h1| by {
      assert s[0] == if lead then '-' else x[0];
    }
    assert s[|h1|..|h1| + |x|] == x;
  }

  /** Between two words of ASCII letters and digits, a gap without any
      becomes exactly one hyphen. */
  lemma TopicSlugJoin(a: string, w: string, b: string)
    requires |a| > 0 && forall i :: 0 <= i < |a| ==> IsAsciiAlnum(a[i])
    requires |w| > 0 && forall i :: 0 <= i < |w| ==> !IsAsciiAlnum(w[i])
    requires |b| > 0 && forall i :: 0 <= i < |b| ==> IsAsciiAlnum(b[i])
    ensures TopicSlug(a + w + b) == Lower(a) + "-" + Lower(b)
  {
    var la, lw, lb := Lower(a), Lower(w), Lower(b);
    LowerAppend(a, w);
    LowerAppend(a + w, b);
    WordRuns(a);
    WordRuns(b);
    GapRuns(w);
    ReplaceRunsAppend(la, lw, NotLowerAlnum);
    ReplaceRunsAppend(la + lw, lb, NotLowerAlnum);
    var joined := la + "-" + lb;
    assert joined[0] == la[0] && joined[|joined| - 1] == lb[|lb| - 1];
    TrimHyphensAround(joined, false, false);
  }

  /** Gaps without ASCII letters or digits before and after a word leave no
      trace: the label is the word, lower-cased. */
  lemma TopicSlugPadding(w1: string, a: string, w2: string)
    requires forall i :: 0 <= i < |w1| ==> !IsAsciiAlnum(w1[i])
    requires |a| > 0 && forall i :: 0 <= i < |a| ==> IsAsciiAlnum(a[i])
    requires forall i :: 0 <= i < |w2| ==> !IsAsciiAlnum(w2[i])
    ensures TopicSlug(w1 + a + w2) == Lower(a)
  {
    var l1, la, l2 := Lower(w1), Lower(a), Lower(w2);
    var h1: string := if w1 != [] then "-" else "";
    var h2: string := if w2 != [] then "-" else "";
    assert Lower(w1 + a + w2) == l1 + la + l2 by {
      LowerAppend(w1, a);
      LowerAppend(w1 + a, w2);
    }
    WordRuns(a);
    assert ReplaceRuns(l1, NotLowerAlnum) == h1 by {
      if w1 != [] { GapRuns(w1); }
    }
    assert ReplaceRuns(l2, NotLowerAlnum) == h2 by {
      if w2 != [] { GapRuns(w2); }
    }
    assert ReplaceRuns(l1 + la, NotLowerAlnum) == h1 + la by {
      ReplaceRunsAppend(l1, la, NotLowerAlnum);
    }
    assert ReplaceRuns(l1 + la + l2, NotLowerAlnum) == h1 + la + h2 by {
      ReplaceRunsAppend(l1 + la, l2, NotLowerAlnum);
    }
    TrimHyphensAround(la, w1 != [], w2 != []);
  }

  // ---------------------------------------------------------------------------
  // Ordering the files

  /** Code-point lexicographic order on strings, the stand-in for
      `localeCompare`. */
  predicate LexLe(a: string, b: string)
    decreases |a|
  {
    a == [] || (b != [] && (a[0] < b[0] || (a[0] == b[0] && LexLe(a[1..], b[1..]))))
  }

  lemma {:induction false} LexLeTotal(a: string, b: string)
    ensures LexLe(a, b) || LexLe(b, a)
    decreases |a|
  {
    if a != [] && b != [] && a[0] == b[0] {
      LexLeTotal(a[1..], b[1..]);
    }
  }

  lemma {:induction false} LexLeTransitive(a: string, b: string, c: string)
    requires LexLe(a, b) && LexLe(b, c)
    ensures LexLe(a, c)
    decreases |a|
  {
    if a != [] && b != [] && c != [] && a[0] == b[0] && b[0] == c[0] {
      LexLeTransitive(a[1..], b[1..], c[1..]);
    }
  }

  lemma {:induction false} LexLeAntisymmetric(a: string, b: string)
    requires LexLe(a, b) && LexLe(b, a)
    ensures a == b
    decreases |a|
  {
    if a != [] {
      LexLeAntisymmetric(a[1..], b[1..]);
      assert a == [a[0]] + a[1..] && b == [b[0]] + b[1..];
    }
  }

  /** `a.localeCompare(b)`, with code-point order for the locale's. */
  function LocaleCompare(a: string, b: string): (c: int)
    ensures c == 0 <==> a == b
    ensures c == -1 || c == 0 || c == 1
  {
    if a == b then 0 else if LexLe(a, b) then -1 else 1
  }

  /** Swapping the operands of the string comparison negates it. */
  lemma LocaleCompareAntisymmetric(a: string, b: string)
    ensures LocaleCompare(a, b) == -LocaleCompare(b, a)
    ensures LocaleCompare(a, b) <= 0 <==> LexLe(a, b)
  {
    LexLeTotal(a, b);
    if LexLe(a, b) && LexLe(b, a) {
      LexLeAntisymmetric(a, b);
    }
    if a == b {
      LexLeReflexive(a);
    }
  }

  lemma {:induction false} LexLeReflexive(a: string)
    ensures LexLe(a, a)
    decreases |a|
  {
    if a != [] {
      LexLeReflexive(a[1..]);
    }
  }

  /** The file's stem names a node, and the first node of that name is the
      index note. */
  predicate IsMocFile(nodes: seq<GraphNode>, f: GeneratedFile)
    ensures IsMocFile(nodes, f) ==>
              exists k :: 0 <= k < |nodes| && nodes[k].id == ToNodeId(f.path) && nodes[k].nodeType == Moc
  {
    var node := FindNode(nodes, ToNodeId(f.path));
    node.Some? && node.value.nodeType == Moc
  }

  /** The comparator handed to `sort`: negative puts `a` first. It answers
      -1, 0 or 1, and 0 only for two ordinary files with the same stem. */
  function Compare(nodes: seq<GraphNode>, a: GeneratedFile, b: GeneratedFile): (c: int)
    ensures c == -1 || c == 0 || c == 1
    ensures c == 0 <==> !IsMocFile(nodes, a) && !IsMocFile(nodes, b) && ToNodeId(a.path) == ToNodeId(b.path)
  {
    if IsMocFile(nodes, a) then -1
    else if IsMocFile(nodes, b) then 1
    else LocaleCompare(ToNodeId(a.path), ToNodeId(b.path))
  }

  /** Unless both files are index-note files, the comparator is consistent:
      swapping its operands negates the answer. With two index-note files it
      answers -1 both ways. */
  lemma CompareAntisymmetric(nodes: seq<GraphNode>, a: GeneratedFile, b: GeneratedFile)
    ensures !(IsMocFile(nodes, a) && IsMocFile(nodes, b)) ==> Compare(nodes, a, b) == -Compare(nodes, b, a)
    ensures IsMocFile(nodes, a) && IsMocFile(nodes, b) ==> Compare(nodes, a, b) == Compare(nodes, b, a) == -1
  {
    LocaleCompareAntisymmetric(ToNodeId(a.path), ToNodeId(b.path));
  }

  /** What the sort looks at for each file: whether it is the index note's
      file, and its node id. */
  datatype SortKey = SortKey(moc: bool, id: string)

  /** The order the sorted list is in: index-note keys first, the rest by
      id. */
  predicate KeyLe(a: SortKey, b: SortKey) {
    a.moc || (!b.moc && LexLe(a.id, b.id))
  }

  predicate SortedBy<T>(s: seq<T>, key: T -> SortKey) {
    forall i, j :: 0 <= i < j < |s| ==> KeyLe(key(s[i]), key(s[j]))
  }

  /** Number of elements whose key is an index-note key. */
  function MocCountBy<T>(s: seq<T>, key: T -> SortKey): nat {
    if s == [] then 0 else (if key(s[0]).moc then 1 else 0) + MocCountBy(s[1..], key)
  }

  /** `x` placed before the first element it does not come after. */
  function InsertBy<T(==)>(x: T, s: seq<T>, key: T -> SortKey): (r: seq<T>)
    ensures |r| == |s| + 1
    ensures multiset(r) == multiset(s) + multiset{x}
    ensures MocCountBy(r, key) == MocCountBy(s, key) + (if key(x).moc then 1 else 0)
  {
    if s == [] then [x]
    else if KeyLe(key(x), key(s[0])) then
      assert ([x] + s)[1..] == s;
      [x] + s
    else
      assert s == [s[0]] + s[1..];
      var r := [s[0]] + InsertBy(x, s[1..], key);
      assert r[1..] == InsertBy(x, s[1..], key);
      r
  }

  /** Inserting into a sorted list keeps it sorted. */
  lemma {:induction false} InsertBySorted<T>(x: T, s: seq<T>, key: T -> SortKey)
    requires SortedBy(s, key)
    ensures SortedBy(InsertBy(x, s, key), key)
    decreases |s|
  {
    if s == [] {
    } else if KeyLe(key(x), key(s[0])) {
      var r := InsertBy(x, s, key);
      forall k | 1 <= k < |r|
        ensures KeyLe(key(x), key(r[k]))
      {
        assert r[k] == s[k - 1];
        if k > 1 && !key(x).moc {
          LexLeTransitive(key(x).id, key(s[0]).id, key(s[k - 1]).id);
        }
      }
      forall i, j | 0 <= i < j < |r|
        ensures KeyLe(key(r[i]), key(r[j]))
      {
        if i > 0 {
          assert r[i] == s[i - 1] && r[j] == s[j - 1];
        }
      }
    } else {
      var rest := InsertBy(x, s[1..], key);
      InsertBySorted(x, s[1..], key);
      var r := InsertBy(x, s, key);
      assert r == [s[0]] + rest;
      assert KeyLe(key(s[0]), key(x)) by {
        LexLeTotal(key(x).id, key(s[0]).id);
      }
      forall k | 0 <= k < |rest|
        ensures KeyLe(key(s[0]), key(rest[k]))
      {
        assert rest[k] in multiset(rest);
        if rest[k] != x {
          assert rest[k] in multiset(s[1..]);
          var m :| 0 <= m < |s[1..]| && s[1..][m] == rest[k];
          assert s[m + 1] == rest[k];
        }
      }
      forall i, j | 0 <= i < j < |r|
        ensures KeyLe(key(r[i]), key(r[j]))
      {
        assert r[j] == rest[j - 1];
        if i > 0 {
          assert r[i] == rest[i - 1];
        }
      }
    }
  }

  /** Insertion sort by key: the same elements, in key order. */
  function SortBy<T(==)>(s: seq<T>, key: T -> SortKey): (r: seq<T>)
    ensures |r| == |s|
    ensures multiset(r) == multiset(s)
    ensures SortedBy(r, key)
    ensures MocCountBy(r, key) == MocCountBy(s, key)
  {
    if s == [] then []
    else
      assert s == [s[0]] + s[1..];
      InsertBySorted(s[0], SortBy(s[1..], key), key);
      InsertBy(s[0], SortBy(s[1..], key), key)
  }

  lemma {:induction false} NoMocKeys<T>(s: seq<T>, key: T -> SortKey)
    requires MocCountBy(s, key) == 0
    ensures forall i :: 0 <= i < |s| ==> !key(s[i]).moc
    decreases |s|
  {
    if s != [] {
      NoMocKeys(s[1..], key);
      assert forall i :: 1 <= i < |s| ==> s[i] == s[1..][i - 1];
    }
  }

  lemma {:induction false} SomeMocKey<T>(s: seq<T>, key: T -> SortKey) returns (k: nat)
    requires MocCountBy(s, key) > 0
    ensures k < |s| && key(s[k]).moc
    decreases |s|
  {
    if key(s[0]).moc {
      k := 0;
    } else {
      var j := SomeMocKey(s[1..], key);
      k := j + 1;
    }
  }

  /** With exactly one index-note key, its element comes first and every
      other follows in ascending order of id. */
  lemma SortByPutsMocFirst<T>(s: seq<T>, key: T -> SortKey)
    requires MocCountBy(s, key) == 1
    ensures var r := SortBy(s, key);
            && |r| == |s| && key(r[0]).moc
            && (forall i :: 1 <= i < |r| ==> !key(r[i]).moc)
            && (forall i, j :: 1 <= i < j < |r| ==> LexLe(key(r[i]).id, key(r[j]).id))
  {
    var r := SortBy(s, key);
    var k := SomeMocKey(r, key);
    if k > 0 {
      assert KeyLe(key(r[0]), key(r[k]));
    }
    assert MocCountBy(r[1..], key) == 0;
    NoMocKeys(r[1..], key);
    assert forall i :: 1 <= i < |r| ==> r[i] == r[1..][i - 1];
  }

  /** The key of a file under a graph's nodes. */
  function FileKey(nodes: seq<GraphNode>): GeneratedFile -> SortKey {
    (f: GeneratedFile) => SortKey(IsMocFile(nodes, f), ToNodeId(f.path))
  }

  /** Number of index-note files. */
  function MocCount(nodes: seq<GraphNode>, files: seq<GeneratedFile>): nat {
    MocCountBy(files, FileKey(nodes))
  }

  /** `[...files].sort(compare)`: a new list holding the same files, in the
      order the comparator asks for. */
  function SortFiles(nodes: seq<GraphNode>, files: seq<GeneratedFile>): (r: seq<GeneratedFile>)
    ensures |r| == |files|
    ensures multiset(r) == multiset(files)
  {
    SortBy(files, FileKey(nodes))
  }

  /** The sorted list never puts a file before one the comparator ranks
      ahead of it. */
  lemma SortAgreesWithCompare(nodes: seq<GraphNode>, files: seq<GeneratedFile>)
    ensures var r := SortFiles(nodes, files);
            forall i, j :: 0 <= i < j < |r| ==> Compare(nodes, r[i], r[j]) <= 0
  {
    var r := SortFiles(nodes, files);
    forall i, j | 0 <= i < j < |r|
      ensures Compare(nodes, r[i], r[j]) <= 0
    {
      assert KeyLe(FileKey(nodes)(r[i]), FileKey(nodes)(r[j]));
      LocaleCompareAntisymmetric(ToNodeId(r[i].path), ToNodeId(r[j].path));
    }
  }

  /** With exactly one index-note file, that file comes first and every other
      file follows in ascending order of node id. */
  lemma SortPutsMocFirst(nodes: seq<GraphNode>, files: seq<GeneratedFile>)
    requires MocCount(nodes, files) == 1
    ensures var r := SortFiles(nodes, files);
            && |r| == |files| && IsMocFile(nodes, r[0])
            && (forall i :: 1 <= i < |r| ==> !IsMocFile(nodes, r[i]))
            && (forall i, j :: 1 <= i < j < |r| ==> LexLe(ToNodeId(r[i].path), ToNodeId(r[j].path)))
  {
    SortByPutsMocFirst(files, FileKey(nodes));
  }

  /** With no index-note file, the files are in ascending order of node id. */
  lemma SortWithoutMocIsById(nodes: seq<GraphNode>, files: seq<GeneratedFile>)
    requires MocCount(nodes, files) == 0
    ensures var r := SortFiles(nodes, files);
            forall i, j :: 0 <= i < j < |r| ==> LexLe(ToNodeId(r[i].path), ToNodeId(r[j].path))
  {
    var r := SortFiles(nodes, files);
    NoMocKeys(r, FileKey(nodes));
    forall i, j | 0 <= i < j < |r|
      ensures LexLe(ToNodeId(r[i].path), ToNodeId(r[j].path))
    {
      assert KeyLe(FileKey(nodes)(r[i]), FileKey(nodes)(r[j]));
    }
  }

  // ---------------------------------------------------------------------------
  // The rows

  /** The type marker of a row: the node's type, or the fallback marker when
      the file's stem names no node. */
  datatype Dot = TypeDot(nodeType: NodeType) | FallbackDot

  /** One file row: its React key, the id passed to `onSelect` when it is
      clicked, the file name shown, the tooltip, the marker, and whether it
      is highlighted. */
  datatype Row = Row(key: string, nodeId: string, fileName: string, title: string, dot: Dot, active: bool)

  /** The panel: the folder label, the count badge, and the file rows
      (none while the folder is collapsed). */
  datatype Panel = Panel(folderLabel: string, count: nat, rows: seq<Row>)

  /** The row drawn for one file. */
  function RowFor(nodes: seq<GraphNode>, selected: Option<string>, file: GeneratedFile): (row: Row)
    ensures row.key == file.path && row.nodeId == ToNodeId(file.path)
    ensures row.fileName == LastSegment(file.path)
    ensures row.active <==> selected == Some(ToNodeId(file.path))
    ensures FindNode(nodes, row.nodeId).None? ==> row.dot == FallbackDot && row.title == row.fileName
    ensures FindNode(nodes, row.nodeId).Some? ==>
              && row.dot == TypeDot(FindNode(nodes, row.nodeId).value.nodeType)
              && row.title == FindNode(nodes, row.nodeId).value.description
  {
    var nodeId := ToNodeId(file.path);
    var fileName := LastSegment(file.path);
    match FindNode(nodes, nodeId)
    case None => Row(file.path, nodeId, fileName, fileName, FallbackDot, selected == Some(nodeId))
    case Some(node) => Row(file.path, nodeId, fileName, node.description, TypeDot(node.nodeType), selected == Some(nodeId))
  }

  function RowsFor(nodes: seq<GraphNode>, selected: Option<string>, files: seq<GeneratedFile>): (rows: seq<Row>)
    ensures |rows| == |files|
    ensures forall i :: 0 <= i < |files| ==> rows[i] == RowFor(nodes, selected, files[i])
  {
    seq(|files|, i requires 0 <= i < |files| => RowFor(nodes, selected, files[i]))
  }

  /** The panel for a graph, its files, the selected node and whether the
      folder is open. The badge counts every file whatever the folder
      state. */
  function PanelFor(graph: SkillGraph, files: seq<GeneratedFile>, selected: Option<string>, folderOpen: bool)
    : (p: Panel)
    ensures p.folderLabel == TopicSlug(graph.topic)
    ensures p.count == |files|
    ensures !folderOpen ==> p.rows == []
    ensures folderOpen ==> |p.rows| == |files|
  {
    Panel(
      TopicSlug(graph.topic),
      |files|,
      if folderOpen then RowsFor(graph.nodes, selected, SortFiles(graph.nodes, files)) else [])
  }

  /** Each element of one of two sequences holding the same elements
      occurs somewhere in the other. */
  lemma SameElements<T>(a: seq<T>, b: seq<T>, i: nat) returns (j: nat)
    requires multiset(a) == multiset(b) && i < |a|
    ensures j < |b| && b[j] == a[i]
  {
    assert a[i] in multiset(b);
    j :| 0 <= j < |b| && b[j] == a[i];
  }

  /** While the folder is open every file gets a row, keyed by its path and
      passing its own stem on click. */
  lemma EveryFileHasRow(graph: SkillGraph, files: seq<GeneratedFile>, selected: Option<string>, i: nat)
    requires i < |files|
    ensures var rows := PanelFor(graph, files, selected, true).rows;
            exists j :: 0 <= j < |rows| && rows[j] == RowFor(graph.nodes, selected, files[i])
  {
    var sorted := SortFiles(graph.nodes, files);
    var j := SameElements(files, sorted, i);
    assert PanelFor(graph, files, selected, true).rows[j] == RowFor(graph.nodes, selected, sorted[j]);
  }

  /** Every row is some file's. */
  lemma EveryRowIsAFile(graph: SkillGraph, files: seq<GeneratedFile>, selected: Option<string>, j: nat)
    requires j < |files|
    ensures var rows := PanelFor(graph, files, selected, true).rows;
            exists i :: 0 <= i < |files| && rows[j] == RowFor(graph.nodes, selected, files[i])
  {
    var sorted := SortFiles(graph.nodes, files);
    var i := SameElements(sorted, files, j);
    assert PanelFor(graph, files, selected, true).rows[j] == RowFor(graph.nodes, selected, files[i]);
  }

  /** The highlighted rows are exactly those whose stem is the selected id;
      with nothing selected, none is. */
  lemma ActiveRowsMatchSelection(graph: SkillGraph, files: seq<GeneratedFile>, selected: Option<string>)
    ensures var rows := PanelFor(graph, files, selected, true).rows;
            && (forall j :: 0 <= j < |rows| ==> (rows[j].active <==> selected == Some(rows[j].nodeId)))
            && (selected.None? ==> forall j :: 0 <= j < |rows| ==> !rows[j].active)
  {
  }

  /** When every file's stem names a node, no row falls back to the default
      marker or to the file name as tooltip. */
  lemma NamedFilesHaveTypeDots(graph: SkillGraph, files: seq<GeneratedFile>, selected: Option<string>)
    requires forall i :: 0 <= i < |files| ==> FindNode(graph.nodes, ToNodeId(files[i].path)).Some?
    ensures var rows := PanelFor(graph, files, selected, true).rows;
            forall j :: 0 <= j < |rows| ==> rows[j].dot.TypeDot?
  {
    var sorted := SortFiles(graph.nodes, files);
    forall j | 0 <= j < |sorted|
      ensures FindNode(graph.nodes, ToNodeId(sorted[j].path)).Some?
    {
      var i := SameElements(sorted, files, j);
    }
  }
}
