/** The heap's block list: headers and payloads that tile the segments, linked both ways. */
module HeapList {
  const HDR: nat := 56
  const PAGE_SIZE: nat := 4096

  datatype Header = Header(size: nat, free: bool, seg: nat, next: nat, prev: nat)
  datatype Segment = Segment(vaddr: nat, pages: nat)

  /** Headers by address. */
  type Headers = map<nat, Header>

  function End(h: Headers, b: nat): nat
    requires b in h
  {
    b + HDR + h[b].size
  }

  function SegEnd(s: Segment): nat {
    s.vaddr + s.pages * PAGE_SIZE
  }

  /** The address at place `i` of the list, 0 past its end. */
  function Nth(ord: seq<nat>, i: int): nat {
    if 0 <= i < |ord| then ord[i] else 0
  }

  /** The block at place `i` lies in its segment and is linked to its neighbours. */
  ghost predicate BlockOk(h: Headers, ord: seq<nat>, segs: seq<Segment>, i: nat)
    requires i < |ord|
  {
    var b := ord[i];
    && b in h && b > 0 && h[b].seg < |segs|
    && segs[h[b].seg].vaddr <= b && End(h, b) <= SegEnd(segs[h[b].seg])
    && h[b].next == Nth(ord, i + 1) && h[b].prev == Nth(ord, i - 1)
  }

  /** Before place `i`: the previous block ends where this one starts, or both lie at the ends of their segments. */
  ghost predicate JoinOk(h: Headers, ord: seq<nat>, segs: seq<Segment>, i: nat)
    requires i <= |ord|
  {
    && (i == 0 && |ord| > 0 ==> ord[0] in h && |segs| > 0 && h[ord[0]].seg == 0 && ord[0] == segs[0].vaddr)
    && (i == |ord| > 0 ==> ord[i - 1] in h && h[ord[i - 1]].seg + 1 == |segs| && End(h, ord[i - 1]) == SegEnd(segs[|segs| - 1]))
    && (0 < i < |ord| ==> ord[i - 1] in h && ord[i] in h && Joined(h, ord[i - 1], ord[i], segs))
  }

  ghost predicate Joined(h: Headers, a: nat, b: nat, segs: seq<Segment>)
    requires a in h && b in h
  {
    if h[a].seg == h[b].seg then End(h, a) == b
    else h[b].seg == h[a].seg + 1 < |segs| && b == segs[h[b].seg].vaddr && End(h, a) == SegEnd(segs[h[a].seg])
  }

  /** Two blocks do not overlap. */
  predicate Apart(h: Headers, a: nat, b: nat) {
    a in h && b in h ==> End(h, a) <= b || End(h, b) <= a
  }

  predicate Place(ord: seq<nat>, i: nat) {
    i < |ord|
  }

  /** No address is at two places. */
  ghost predicate Once(ord: seq<nat>) {
    forall i: nat, j: nat {:trigger Place(ord, i), Place(ord, j)} :: Place(ord, i) && Place(ord, j) && ord[i] == ord[j] ==> i == j
  }

  /** The list holds every header once, and its blocks tile the segments, in order. */
  ghost predicate Tiled(h: Headers, ord: seq<nat>, segs: seq<Segment>) {
    && (ord == [] <==> segs == [])
    && (forall i: nat :: i < |ord| ==> BlockOk(h, ord, segs, i))
    && (forall i: nat :: i <= |ord| ==> JoinOk(h, ord, segs, i))
    && (forall b: nat :: b in h ==> b in ord)
    && (forall a: nat, b: nat {:trigger Apart(h, a, b)} :: a in h && b in h && a != b ==> Apart(h, a, b))
    && Once(ord)
  }

  /** The list with the block after place `i` taken out. */
  function Without(ord: seq<nat>, i: nat): (r: seq<nat>)
    requires i < |ord|
    ensures |r| == |ord| - 1 && forall k: nat :: k < |r| ==> r[k] == ord[if k < i then k else k + 1]
  {
    ord[..i] + ord[i + 1..]
  }

  lemma WithoutMembers(ord: seq<nat>, i: nat)
    requires i < |ord| && Once(ord)
    ensures Once(Without(ord, i)) && forall x: nat :: x in Without(ord, i) <==> x in ord && x != ord[i]
  {
    var r := Without(ord, i);
    forall j: nat, k: nat | Place(r, j) && Place(r, k) && r[j] == r[k] ensures j == k {
      assert Place(ord, if j < i then j else j + 1) && Place(ord, if k < i then k else k + 1);
    }
    forall x: nat ensures x in r <==> x in ord && x != ord[i] {
      if x in r {
        var j: nat :| j < |r| && r[j] == x;
        assert Place(ord, if j < i then j else j + 1) && Place(ord, i);
      }
      if x in ord && x != ord[i] {
        var j: nat :| j < |ord| && ord[j] == x;
        assert r[if j < i then j else j - 1] == x;
      }
    }
  }

  /** What merging block `a` with the next, `n`, does to the headers; `m` is the one after, or 0. */
  ghost predicate Merged(h: Headers, h': Headers, a: nat, n: nat, m: nat) {
    && a in h && n in h && a != n && n != m && a != m
    && (forall b: nat :: b in h' <==> b in h && b != n)
    && h'[a] == h[a].(size := h[a].size + HDR + h[n].size, next := m)
    && (m in h ==> h'[m] == h[m].(prev := a))
    && forall b: nat :: b in h && b != a && b != n && b != m ==> h'[b] == h[b]
  }

  /** A merge is possible: places `i` and `i + 1` of the list, in one segment. */
  ghost predicate MayMerge(h: Headers, h': Headers, ord: seq<nat>, segs: seq<Segment>, i: nat) {
    && Tiled(h, ord, segs) && i + 1 < |ord| && Merged(h, h', ord[i], ord[i + 1], Nth(ord, i + 2))
    && h[ord[i]].seg == h[ord[i + 1]].seg
  }

  lemma MergedSelf(h: Headers, h': Headers, ord: seq<nat>, segs: seq<Segment>, i: nat)
    requires MayMerge(h, h', ord, segs, i)
    ensures BlockOk(h', Without(ord, i + 1), segs, i) && End(h', ord[i]) == End(h, ord[i + 1])
  {
    assert BlockOk(h, ord, segs, i) && BlockOk(h, ord, segs, i + 1) && JoinOk(h, ord, segs, i + 1);
    var r := Without(ord, i + 1);
    assert r[i] == ord[i] && Nth(r, i + 1) == Nth(ord, i + 2) && Nth(r, i - 1) == Nth(ord, i - 1);
  }

  lemma MergedOther(h: Headers, h': Headers, ord: seq<nat>, segs: seq<Segment>, i: nat, k: nat)
    requires MayMerge(h, h', ord, segs, i) && k < |ord| - 1 && k != i
    ensures BlockOk(h', Without(ord, i + 1), segs, k)
    ensures var b := Without(ord, i + 1)[k]; b in h && b in h' && End(h', b) == End(h, b) && h'[b].seg == h[b].seg
  {
    var r := Without(ord, i + 1);
    var j := if k < i + 1 then k else k + 1;
    assert BlockOk(h, ord, segs, j) && r[k] == ord[j];
    assert Place(ord, j) && Place(ord, i) && Place(ord, i + 1) && (i + 2 < |ord| ==> Place(ord, i + 2));
    if k < i {
      assert Nth(r, k + 1) == Nth(ord, k + 1) && Nth(r, k - 1) == Nth(ord, k - 1);
    } else {
      assert Nth(r, k + 1) == Nth(ord, k + 2) && Nth(r, k - 1) == if k == i + 1 then ord[i] else ord[k];
    }
  }

  /** Where blocks of the list start and end, and in which segment, seen by the joins alone. */
  ghost predicate SameEnds(h: Headers, a: nat, h': Headers, a': nat) {
    a in h && a' in h' && h'[a'].seg == h[a].seg && End(h', a') == End(h, a)
  }

  lemma JoinKept(h: Headers, ord: seq<nat>, j: nat, h': Headers, r: seq<nat>, k: nat, segs: seq<Segment>)
    requires j <= |ord| && k <= |r| && JoinOk(h, ord, segs, j) && (j == 0 <==> k == 0) && (j == |ord| <==> k == |r|)
    requires k > 0 ==> SameEnds(h, ord[j - 1], h', r[k - 1])
    requires k < |r| ==> ord[j] in h && r[k] in h' && r[k] == ord[j] && h'[r[k]].seg == h[ord[j]].seg
    ensures JoinOk(h', r, segs, k)
  {
  }

  lemma MergedJoin(h: Headers, h': Headers, ord: seq<nat>, segs: seq<Segment>, i: nat, k: nat)
    requires MayMerge(h, h', ord, segs, i) && k <= |ord| - 1
    ensures JoinOk(h', Without(ord, i + 1), segs, k)
  {
    var r := Without(ord, i + 1);
    var j := if k <= i then k else k + 1;
    if k > 0 {
      if k - 1 == i { MergedSelf(h, h', ord, segs, i); } else { MergedOther(h, h', ord, segs, i, k - 1); }
    }
    if k < |r| {
      if k == i { MergedSelf(h, h', ord, segs, i); } else { MergedOther(h, h', ord, segs, i, k); }
    }
    JoinKept(h, ord, j, h', r, k, segs);
  }

  lemma MergedBlocks(h: Headers, h': Headers, ord: seq<nat>, segs: seq<Segment>, i: nat, r: seq<nat>)
    requires MayMerge(h, h', ord, segs, i) && r == Without(ord, i + 1)
    ensures forall k: nat :: k < |r| ==> BlockOk(h', r, segs, k)
    ensures forall k: nat :: k <= |r| ==> JoinOk(h', r, segs, k)
  {
    forall k: nat | k < |r| ensures BlockOk(h', r, segs, k) {
      if k == i { MergedSelf(h, h', ord, segs, i); } else { MergedOther(h, h', ord, segs, i, k); }
    }
    forall k: nat | k <= |r| ensures JoinOk(h', r, segs, k) { MergedJoin(h, h', ord, segs, i, k); }
  }

  lemma MergedAparts(h: Headers, h': Headers, ord: seq<nat>, segs: seq<Segment>, i: nat)
    requires MayMerge(h, h', ord, segs, i)
    ensures forall a: nat, b: nat {:trigger Apart(h', a, b)} :: a in h' && b in h' && a != b ==> Apart(h', a, b)
  {
    forall a: nat, b: nat | a in h' && b in h' && a != b ensures Apart(h', a, b) { MergedApart(h, h', ord, segs, i, a, b); }
  }

  /** Merging keeps the segments tiled. */
  lemma MergeTiled(h: Headers, h': Headers, ord: seq<nat>, segs: seq<Segment>, i: nat)
    requires MayMerge(h, h', ord, segs, i)
    ensures Tiled(h', Without(ord, i + 1), segs)
  {
    WithoutMembers(ord, i + 1);
    MergedBlocks(h, h', ord, segs, i, Without(ord, i + 1));
    MergedAparts(h, h', ord, segs, i);
  }

  lemma MergedApart(h: Headers, h': Headers, ord: seq<nat>, segs: seq<Segment>, i: nat, a: nat, b: nat)
    requires MayMerge(h, h', ord, segs, i) && a in h' && b in h' && a != b
    ensures Apart(h', a, b)
  {
    var x, n := ord[i], ord[i + 1];
    assert Apart(h, a, b) && Apart(h, a, n) && Apart(h, n, b);
    assert JoinOk(h, ord, segs, i + 1);
  }

  /** The list with `c` put in at place `i`. */
  function With(ord: seq<nat>, i: nat, c: nat): (r: seq<nat>)
    requires i <= |ord|
    ensures |r| == |ord| + 1
    ensures forall k: nat :: k < |r| ==> r[k] == if k < i then ord[k] else if k == i then c else ord[k - 1]
  {
    ord[..i] + [c] + ord[i..]
  }

  lemma WithMembers(ord: seq<nat>, i: nat, c: nat)
    requires i <= |ord| && Once(ord) && c !in ord
    ensures Once(With(ord, i, c)) && forall x: nat :: x in With(ord, i, c) <==> x in ord || x == c
  {
    var r := With(ord, i, c);
    forall j: nat, k: nat | Place(r, j) && Place(r, k) && r[j] == r[k] ensures j == k {
      assert j != i ==> r[j] in ord && Place(ord, if j < i then j else j - 1);
      assert k != i ==> r[k] in ord && Place(ord, if k < i then k else k - 1);
    }
    forall x: nat ensures x in r <==> x in ord || x == c {
      if x in ord {
        var j: nat :| j < |ord| && ord[j] == x;
        assert r[if j < i then j else j + 1] == x;
      }
      assert r[i] == c;
    }
  }

  /** What splitting block `a` after `size` bytes does to the headers; `c` is the new block, `m` the one after, or 0. */
  ghost predicate Splits(h: Headers, h': Headers, a: nat, size: nat, c: nat, m: nat) {
    && a in h && h[a].size > size + HDR && c == a + HDR + size && a != m && c != m
    && (forall b: nat :: b in h' <==> b in h || b == c)
    && h'[a] == h[a].(size := size, next := c)
    && h'[c] == Header(h[a].size - size - HDR, true, h[a].seg, m, a)
    && (m in h ==> h'[m] == h[m].(prev := c))
    && forall b: nat :: b in h && b != a && b != m && b != c ==> h'[b] == h[b]
  }

  ghost predicate MaySplit(h: Headers, h': Headers, ord: seq<nat>, segs: seq<Segment>, i: nat, size: nat, c: nat) {
    && Tiled(h, ord, segs) && i < |ord| && c !in h && Splits(h, h', ord[i], size, c, Nth(ord, i + 1))
  }

  /** The new block's address lies inside a block, so it is no block's address. */
  lemma InsideFresh(h: Headers, ord: seq<nat>, segs: seq<Segment>, a: nat, c: nat)
    requires Tiled(h, ord, segs) && a in h && a < c < End(h, a)
    ensures c !in h
  {
    assert c in h ==> Apart(h, a, c);
  }

  lemma SplitPair(h: Headers, h': Headers, ord: seq<nat>, segs: seq<Segment>, i: nat, size: nat, c: nat)
    requires MaySplit(h, h', ord, segs, i, size, c)
    ensures BlockOk(h', With(ord, i + 1, c), segs, i) && BlockOk(h', With(ord, i + 1, c), segs, i + 1)
    ensures End(h', ord[i]) == c && End(h', c) == End(h, ord[i]) && h'[ord[i]].seg == h'[c].seg == h[ord[i]].seg
  {
    assert BlockOk(h, ord, segs, i);
    var r := With(ord, i + 1, c);
    assert r[i] == ord[i] && r[i + 1] == c && Nth(r, i + 2) == Nth(ord, i + 1) && Nth(r, i - 1) == Nth(ord, i - 1);
  }

  lemma SplitBefore(h: Headers, h': Headers, ord: seq<nat>, segs: seq<Segment>, i: nat, size: nat, c: nat, k: nat)
    requires MaySplit(h, h', ord, segs, i, size, c) && k < i
    ensures BlockOk(h', With(ord, i + 1, c), segs, k) && ord[k] in h && ord[k] in h' && h'[ord[k]] == h[ord[k]]
  {
    var r := With(ord, i + 1, c);
    assert BlockOk(h, ord, segs, k);
    assert Place(ord, k) && Place(ord, i) && (i + 1 < |ord| ==> Place(ord, i + 1));
    assert r[k] == ord[k] && Nth(r, k + 1) == Nth(ord, k + 1) && Nth(r, k - 1) == Nth(ord, k - 1);
  }

  lemma SplitAfter(h: Headers, h': Headers, ord: seq<nat>, segs: seq<Segment>, i: nat, size: nat, c: nat, j: nat)
    requires MaySplit(h, h', ord, segs, i, size, c) && i < j < |ord|
    ensures BlockOk(h', With(ord, i + 1, c), segs, j + 1) && ord[j] in h && ord[j] in h' && h'[ord[j]] == h[ord[j]].(prev := h'[ord[j]].prev)
  {
    var r := With(ord, i + 1, c);
    assert BlockOk(h, ord, segs, j);
    assert Place(ord, j) && Place(ord, i) && Place(ord, i + 1);
    assert r[j + 1] == ord[j] && Nth(r, j + 2) == Nth(ord, j + 1) && Nth(r, j) == if j == i + 1 then c else ord[j - 1];
  }

  lemma SplitOther(h: Headers, h': Headers, ord: seq<nat>, segs: seq<Segment>, i: nat, size: nat, c: nat, k: nat)
    requires MaySplit(h, h', ord, segs, i, size, c) && k < |ord| + 1 && k != i && k != i + 1
    ensures BlockOk(h', With(ord, i + 1, c), segs, k)
    ensures var b := With(ord, i + 1, c)[k]; b in h && b in h' && End(h', b) == End(h, b) && h'[b].seg == h[b].seg
  {
    if k < i {
      SplitBefore(h, h', ord, segs, i, size, c, k);
      assert BlockOk(h, ord, segs, k);
    } else {
      SplitAfter(h, h', ord, segs, i, size, c, k - 1);
      assert BlockOk(h, ord, segs, k - 1);
    }
  }

  lemma SplitJoinBefore(h: Headers, h': Headers, ord: seq<nat>, segs: seq<Segment>, i: nat, size: nat, c: nat, k: nat)
    requires MaySplit(h, h', ord, segs, i, size, c) && k <= i
    ensures JoinOk(h', With(ord, i + 1, c), segs, k)
  {
    var r := With(ord, i + 1, c);
    assert r[k] == ord[k] && (k > 0 ==> r[k - 1] == ord[k - 1]);
    if k > 0 { SplitOther(h, h', ord, segs, i, size, c, k - 1); }
    if k < i { SplitOther(h, h', ord, segs, i, size, c, k); } else { SplitPair(h, h', ord, segs, i, size, c); }
    assert ord[k] in h by { assert BlockOk(h, ord, segs, k); }
    JoinKept(h, ord, k, h', r, k, segs);
  }

  lemma SplitJoinAfter(h: Headers, h': Headers, ord: seq<nat>, segs: seq<Segment>, i: nat, size: nat, c: nat, k: nat)
    requires MaySplit(h, h', ord, segs, i, size, c) && i + 1 < k <= |ord| + 1
    ensures JoinOk(h', With(ord, i + 1, c), segs, k)
  {
    var r := With(ord, i + 1, c);
    if k == i + 2 {
      SplitPair(h, h', ord, segs, i, size, c);
      assert ord[i] in h by { assert BlockOk(h, ord, segs, i); }
    } else {
      SplitOther(h, h', ord, segs, i, size, c, k - 1);
    }
    if k < |r| { SplitOther(h, h', ord, segs, i, size, c, k); }
    JoinKept(h, ord, k - 1, h', r, k, segs);
  }

  lemma SplitJoin(h: Headers, h': Headers, ord: seq<nat>, segs: seq<Segment>, i: nat, size: nat, c: nat, k: nat)
    requires MaySplit(h, h', ord, segs, i, size, c) && k <= |ord| + 1
    ensures JoinOk(h', With(ord, i + 1, c), segs, k)
  {
    if k <= i {
      SplitJoinBefore(h, h', ord, segs, i, size, c, k);
    } else if k == i + 1 {
      SplitPair(h, h', ord, segs, i, size, c);
    } else {
      SplitJoinAfter(h, h', ord, segs, i, size, c, k);
    }
  }

  lemma SplitBlocks(h: Headers, h': Headers, ord: seq<nat>, segs: seq<Segment>, i: nat, size: nat, c: nat, r: seq<nat>)
    requires MaySplit(h, h', ord, segs, i, size, c) && r == With(ord, i + 1, c)
    ensures forall k: nat :: k < |r| ==> BlockOk(h', r, segs, k)
    ensures forall k: nat :: k <= |r| ==> JoinOk(h', r, segs, k)
  {
    forall k: nat | k < |r| ensures BlockOk(h', r, segs, k) {
      if k == i || k == i + 1 { SplitPair(h, h', ord, segs, i, size, c); } else { SplitOther(h, h', ord, segs, i, size, c, k); }
    }
    forall k: nat | k <= |r| ensures JoinOk(h', r, segs, k) { SplitJoin(h, h', ord, segs, i, size, c, k); }
  }

  lemma SplitAparts(h: Headers, h': Headers, ord: seq<nat>, segs: seq<Segment>, i: nat, size: nat, c: nat)
    requires MaySplit(h, h', ord, segs, i, size, c)
    ensures forall a: nat, b: nat {:trigger Apart(h', a, b)} :: a in h' && b in h' && a != b ==> Apart(h', a, b)
  {
    var x := ord[i];
    forall a: nat, b: nat | a in h' && b in h' && a != b ensures Apart(h', a, b) {
      assert a != c && b != c ==> Apart(h, a, b);
      assert a != c && a != x ==> Apart(h, a, x);
      assert b != c && b != x ==> Apart(h, x, b);
    }
  }

  lemma SplitMembers(h: Headers, h': Headers, ord: seq<nat>, segs: seq<Segment>, i: nat, size: nat, c: nat, r: seq<nat>)
    requires MaySplit(h, h', ord, segs, i, size, c) && r == With(ord, i + 1, c)
    ensures Once(r) && forall b: nat :: b in h' ==> b in r
  {
    forall k: nat | k < |ord| ensures ord[k] in h { assert BlockOk(h, ord, segs, k); }
    WithMembers(ord, i + 1, c);
  }

  /** Splitting keeps the segments tiled. */
  lemma SplitTiled(h: Headers, h': Headers, ord: seq<nat>, segs: seq<Segment>, i: nat, size: nat, c: nat)
    requires MaySplit(h, h', ord, segs, i, size, c)
    ensures Tiled(h', With(ord, i + 1, c), segs)
  {
    var r := With(ord, i + 1, c);
    SplitMembers(h, h', ord, segs, i, size, c, r);
    SplitBlocks(h, h', ord, segs, i, size, c, r);
    SplitAparts(h, h', ord, segs, i, size, c);
    assert r != [] && segs != [];
  }

  /** The shape of the list does not depend on which blocks are free. */
  ghost predicate SameShape(h: Headers, h': Headers) {
    && (forall b: nat :: b in h <==> b in h')
    && forall b: nat :: b in h ==> h'[b] == h[b].(free := h'[b].free)
  }

  lemma ShapeTiled(h: Headers, h': Headers, ord: seq<nat>, segs: seq<Segment>)
    requires Tiled(h, ord, segs) && SameShape(h, h')
    ensures Tiled(h', ord, segs)
  {
    forall i: nat | i < |ord| ensures BlockOk(h', ord, segs, i) { assert BlockOk(h, ord, segs, i); }
    forall i: nat | i <= |ord| ensures JoinOk(h', ord, segs, i) { assert JoinOk(h, ord, segs, i); }
    forall a: nat, b: nat | a in h' && b in h' && a != b ensures Apart(h', a, b) { assert Apart(h, a, b); }
  }

  /** The range of `pages` pages from `v` on meets no segment. */
  ghost predicate Unused(segs: seq<Segment>, v: nat, pages: nat) {
    forall i: nat :: i < |segs| ==> v + pages * PAGE_SIZE <= segs[i].vaddr || SegEnd(segs[i]) <= v
  }

  /** What a new segment of `pages` pages at `v` adds: one free block, behind the last block `tail`, or 0. */
  ghost predicate Appends(h: Headers, h': Headers, tail: nat, v: nat, pages: nat, seg: nat) {
    && v !in h && v > 0 && pages * PAGE_SIZE > HDR && tail != v
    && (forall b: nat :: b in h' <==> b in h || b == v)
    && h'[v] == Header(pages * PAGE_SIZE - HDR, true, seg, 0, tail)
    && (tail in h ==> h'[tail] == h[tail].(next := v))
    && forall b: nat :: b in h && b != tail && b != v ==> h'[b] == h[b]
  }

  ghost predicate MayAppend(h: Headers, h': Headers, ord: seq<nat>, segs: seq<Segment>, v: nat, pages: nat) {
    Tiled(h, ord, segs) && Unused(segs, v, pages) && Appends(h, h', Nth(ord, |ord| - 1), v, pages, |segs|)
  }

  lemma UnusedFresh(h: Headers, ord: seq<nat>, segs: seq<Segment>, v: nat, pages: nat, b: nat)
    requires Tiled(h, ord, segs) && Unused(segs, v, pages) && pages > 0 && b in h
    ensures b != v && (End(h, b) <= v || v + pages * PAGE_SIZE <= b)
  {
    var i: nat :| i < |ord| && ord[i] == b;
    assert BlockOk(h, ord, segs, i);
  }

  lemma AppendBlock(h: Headers, h': Headers, ord: seq<nat>, segs: seq<Segment>, v: nat, pages: nat, k: nat)
    requires MayAppend(h, h', ord, segs, v, pages) && k <= |ord|
    ensures BlockOk(h', ord + [v], segs + [Segment(v, pages)], k)
    ensures var b := (ord + [v])[k]; k < |ord| ==> b in h && b in h' && End(h', b) == End(h, b) && h'[b].seg == h[b].seg
  {
    var r := ord + [v];
    if k < |ord| {
      assert BlockOk(h, ord, segs, k) && ord[k] in h;
      assert Place(ord, k) && Place(ord, |ord| - 1);
      assert Nth(r, k + 1) == (if k + 1 < |ord| then ord[k + 1] else v) && Nth(r, k - 1) == Nth(ord, k - 1);
    } else {
      assert r[k] == v && Nth(r, k + 1) == 0 && Nth(r, k - 1) == Nth(ord, |ord| - 1);
    }
  }

  lemma AppendJoin(h: Headers, h': Headers, ord: seq<nat>, segs: seq<Segment>, v: nat, pages: nat, k: nat)
    requires MayAppend(h, h', ord, segs, v, pages) && k <= |ord| + 1
    ensures JoinOk(h', ord + [v], segs + [Segment(v, pages)], k)
  {
    if k <= |ord| { AppendBlock(h, h', ord, segs, v, pages, k); assert JoinOk(h, ord, segs, k); }
    if k > 0 { AppendBlock(h, h', ord, segs, v, pages, k - 1); }
  }

  /** Growing keeps the segments tiled. */
  lemma AppendTiled(h: Headers, h': Headers, ord: seq<nat>, segs: seq<Segment>, v: nat, pages: nat, r: seq<nat>, segs': seq<Segment>)
    requires MayAppend(h, h', ord, segs, v, pages) && r == ord + [v] && segs' == segs + [Segment(v, pages)]
    ensures Tiled(h', r, segs')
  {
    forall k: nat | k < |r| ensures BlockOk(h', r, segs', k) { AppendBlock(h, h', ord, segs, v, pages, k); }
    forall k: nat | k <= |r| ensures JoinOk(h', r, segs', k) { AppendJoin(h, h', ord, segs, v, pages, k); }
    forall k: nat | k < |ord| ensures ord[k] in h { assert BlockOk(h, ord, segs, k); }
    forall a: nat, b: nat | a in h' && b in h' && a != b ensures Apart(h', a, b) {
      if a != v && b != v { assert Apart(h, a, b); }
      else if a != v { UnusedFresh(h, ord, segs, v, pages, a); }
      else { UnusedFresh(h, ord, segs, v, pages, b); }
    }
    assert v !in ord;
    forall j: nat, k: nat | Place(r, j) && Place(r, k) && r[j] == r[k] ensures j == k {
      assert j < |ord| ==> Place(ord, j) && ord[j] in ord;
      assert k < |ord| ==> Place(ord, k) && ord[k] in ord;
    }
  }

  /** What dropping the last block `b` does; `p` is the one before, or 0. */
  ghost predicate Drops(h: Headers, h': Headers, b: nat, p: nat) {
    && b in h && b != p
    && (forall x: nat :: x in h' <==> x in h && x != b)
    && (p in h ==> h'[p] == h[p].(next := 0))
    && forall x: nat :: x in h && x != b && x != p ==> h'[x] == h[x]
  }

  /** The last block is the whole of the last segment. */
  ghost predicate WholeLast(h: Headers, ord: seq<nat>, segs: seq<Segment>) {
    && |ord| > 0 && |segs| > 0 && ord[|ord| - 1] in h
    && ord[|ord| - 1] == segs[|segs| - 1].vaddr && End(h, ord[|ord| - 1]) == SegEnd(segs[|segs| - 1])
  }

  ghost predicate MayDrop(h: Headers, h': Headers, ord: seq<nat>, segs: seq<Segment>) {
    Tiled(h, ord, segs) && WholeLast(h, ord, segs) && Drops(h, h', ord[|ord| - 1], Nth(ord, |ord| - 2))
  }

  lemma DropBlock(h: Headers, h': Headers, ord: seq<nat>, segs: seq<Segment>, k: nat)
    requires MayDrop(h, h', ord, segs) && k < |ord| - 1
    ensures BlockOk(h', ord[..|ord| - 1], segs[..|segs| - 1], k)
    ensures var b := ord[k]; b in h && b in h' && End(h', b) == End(h, b) && h'[b].seg == h[b].seg
  {
    var n := |ord| - 1;
    var r := ord[..n];
    assert Place(ord, k) && Place(ord, n) && (n > 0 ==> Place(ord, n - 1));
    assert BlockOk(h, ord, segs, k) && ord[k] in h && Apart(h, ord[k], ord[n]);
    assert Nth(r, k + 1) == (if k + 1 < n then ord[k + 1] else 0) && Nth(r, k - 1) == Nth(ord, k - 1);
  }

  lemma DropJoin(h: Headers, h': Headers, ord: seq<nat>, segs: seq<Segment>, k: nat)
    requires MayDrop(h, h', ord, segs) && k < |ord|
    ensures JoinOk(h', ord[..|ord| - 1], segs[..|segs| - 1], k)
  {
    assert JoinOk(h, ord, segs, k) && JoinOk(h, ord, segs, |ord|);
    if k < |ord| - 1 { DropBlock(h, h', ord, segs, k); }
    if k > 0 { DropBlock(h, h', ord, segs, k - 1); }
  }

  /** Dropping a segment that is one block keeps the others tiled. */
  lemma DropTiled(h: Headers, h': Headers, ord: seq<nat>, segs: seq<Segment>, r: seq<nat>, segs': seq<Segment>)
    requires MayDrop(h, h', ord, segs) && r == ord[..|ord| - 1] && segs' == segs[..|segs| - 1]
    ensures Tiled(h', r, segs')
  {
    var n := |ord| - 1;
    forall k: nat | k < |r| ensures BlockOk(h', r, segs', k) { DropBlock(h, h', ord, segs, k); }
    forall k: nat | k <= |r| ensures JoinOk(h', r, segs', k) { DropJoin(h, h', ord, segs, k); }
    forall a: nat, b: nat | a in h' && b in h' && a != b ensures Apart(h', a, b) { assert Apart(h, a, b); }
    assert ord == r + [ord[n]];
    forall j: nat, k: nat | Place(r, j) && Place(r, k) && r[j] == r[k] ensures j == k { assert Place(ord, j) && Place(ord, k); }
    forall j: nat | j < |r| ensures r[j] != ord[n] { assert Place(ord, j) && Place(ord, n); }
    assert JoinOk(h, ord, segs, 0) && JoinOk(h, ord, segs, n) && JoinOk(h, ord, segs, n + 1);
    if n > 0 { DropBlock(h, h', ord, segs, n - 1); }
  }
}
