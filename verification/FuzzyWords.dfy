/**
 Approximate matching in words: stretches of the input within an edit or Hamming
 distance of a word of the graph (util/ng_find_matches.cpp).
 */
module FuzzyWords {
  import opened Common
  import opened FindMatches
  import opened FindMatchesScan
  import opened FuzzyMatching

  // ----- words

  /** w is a word that the walk p reads. */
  ghost predicate Spells(g: Graph, p: seq<nat>, w: seq<bv8>) {
    |w| == |p| && forall j :: 0 <= j < |p| ==> Reads(g, p[j], w[j])
  }

  /** Edit distance: bytes inserted, left out and replaced. */
  function Distance(w: seq<bv8>, s: seq<bv8>): nat
    decreases |w| + |s|
  {
    if w == [] then |s|
    else if s == [] then |w|
    else
      var w', s' := w[..|w| - 1], s[..|s| - 1];
      Min(Distance(w', s') + (if w[|w| - 1] == s[|s| - 1] then 0 else 1), 1 + Min(Distance(w, s'), Distance(w', s)))
  }

  /** Hamming distance. */
  function Differences(w: seq<bv8>, s: seq<bv8>): nat
    requires |w| == |s|
  {
    if w == [] then 0
    else Differences(w[..|w| - 1], s[..|s| - 1]) + (if w[|w| - 1] == s[|s| - 1] then 0 else 1)
  }

  ghost predicate ReadsSome(g: Graph, v: nat) { exists b: bv8 :: Reads(g, v, b) }

  /** Every vertex of the walk reads some byte. */
  ghost predicate Readable(g: Graph, p: seq<nat>) { forall j :: 0 <= j < |p| ==> ReadsSome(g, p[j]) }

  lemma OneByte(g: Graph, p: seq<nat>, v: nat, w: seq<bv8>, b: bv8)
    requires Spells(g, p, w) && Reads(g, v, b)
    ensures Spells(g, p + [v], w + [b])
  {
  }

  /** How the distance grows with a byte of the word, of the stretch, or of both. */
  lemma DistanceGrows(w: seq<bv8>, b: bv8, s: seq<bv8>, c: bv8)
    ensures Distance(w + [b], s + [c]) ==
            Min(Distance(w, s) + (if b == c then 0 else 1), 1 + Min(Distance(w + [b], s), Distance(w, s + [c])))
  {
    assert (w + [b])[..|w + [b]| - 1] == w && (s + [c])[..|s + [c]| - 1] == s;
  }

  lemma {:induction false} DistanceOneMore(w: seq<bv8>, s: seq<bv8>, b: bv8)
    ensures Distance(w, s + [b]) <= Distance(w, s) + 1 && Distance(w + [b], s) <= Distance(w, s) + 1
    ensures Distance([], s) == |s| && Distance(w, []) == |w|
  {
    assert (s + [b])[..|s|] == s && (w + [b])[..|w|] == w;
  }

  lemma {:induction false} FewEdits(g: Graph, o: nat, p: seq<nat>, s: seq<bv8>, w: seq<bv8>)
    requires g.virtualStarts == {} && Spells(g, p, w)
    ensures Aligned(g, false, o, p, s, Distance(w, s))
    decreases |p| + |s|
  {
    hide Aligned, Distance, Spells;
    SpellsParts(g, p, w);
    DistanceOneMore(w, s, 0);
    if p == [] {
      Spare(g, o, s);
    } else if s == [] {
      NothingAligned(g, false, o);
      LeaveOut(g, o, [], p, s, 0);
      assert [] + p == p;
    } else {
      var n, m := |p| - 1, |s| - 1;
      FewEdits(g, o, p[..n], s[..m], w[..n]);
      FewEdits(g, o, p, s[..m], w);
      FewEdits(g, o, p[..n], s, w[..n]);
      assert p == p[..n] + [p[n]] && s == s[..m] + [s[m]] && w == w[..n] + [w[n]];
      DistanceGrows(w[..n], w[n], s[..m], s[m]);
      BestEdit(g, o, p[..n], p[n], s[..m], s[m], w[..n], w[n], Distance(w, s));
    }
  }

  lemma BestEdit(g: Graph, o: nat, p: seq<nat>, v: nat, s: seq<bv8>, c: bv8, w: seq<bv8>, b: bv8, k: nat)
    requires g.virtualStarts == {} && Reads(g, v, b)
    requires Aligned(g, false, o, p, s, Distance(w, s)) && Aligned(g, false, o, p + [v], s, Distance(w + [b], s))
    requires Aligned(g, false, o, p, s + [c], Distance(w, s + [c]))
    requires k == Min(Distance(w, s) + (if b == c then 0 else 1), 1 + Min(Distance(w + [b], s), Distance(w, s + [c])))
    ensures Aligned(g, false, o, p + [v], s + [c], k)
  {
    hide Aligned, Distance, Reads;
    if k == 1 + Distance(w + [b], s) {
      Insert(g, o, p + [v], s, c, Distance(w + [b], s));
    } else if k == 1 + Distance(w, s + [c]) {
      LeaveOut(g, o, p, [v], s + [c], Distance(w, s + [c]));
    } else if b == c {
      Keep(g, false, o, p, v, s, c, Distance(w, s));
    } else {
      Replace(g, false, o, p, v, s, c, Distance(w, s));
    }
  }

  lemma SpellsParts(g: Graph, p: seq<nat>, w: seq<bv8>)
    requires Spells(g, p, w)
    ensures |w| == |p|
    ensures p != [] ==> Spells(g, p[..|p| - 1], w[..|p| - 1]) && Reads(g, p[|p| - 1], w[|p| - 1])
  {
    hide Reads;
  }

  lemma ReadableParts(g: Graph, p: seq<nat>) returns (b: bv8)
    requires Readable(g, p) && p != []
    ensures Readable(g, p[..|p| - 1]) && Reads(g, p[|p| - 1], b)
  {
    hide Reads;
    assert ReadsSome(g, p[|p| - 1]);
    b :| Reads(g, p[|p| - 1], b);
  }

  lemma NothingAligned(g: Graph, hamming: bool, o: nat)
    ensures Aligned(g, hamming, o, [], [], 0)
  {
  }

  lemma {:induction false} Spare(g: Graph, o: nat, s: seq<bv8>)
    ensures Aligned(g, false, o, [], s, |s|)
  {
    if s != [] {
      Spare(g, o, s[..|s| - 1]);
    }
  }

  lemma NoWord(g: Graph)
    ensures Spells(g, [], []) && Distance([], []) == 0
  {
  }

  lemma {:induction false} NearWord(g: Graph, o: nat, p: seq<nat>, s: seq<bv8>, k: nat) returns (w: seq<bv8>)
    requires Readable(g, p) && Aligned(g, false, o, p, s, k)
    ensures Spells(g, p, w) && Distance(w, s) <= k
    decreases |p| + |s|
  {
    hide Reads, Replaceable, Readable, Spells, Distance, End;
    var n, m := |p| - 1, |s| - 1;
    var b: bv8 := 0;
    if p != [] {
      b := ReadableParts(g, p);
      assert p[..n] + [p[n]] == p;
    }
    if s != [] {
      assert s[..m] + [s[m]] == s;
    }
    if p == [] && s == [] {
      w := [];
      NoWord(g);
    } else if p != [] && s != [] && Reads(g, p[n], s[m]) && Aligned(g, false, o, p[..n], s[..m], k) {
      w := NearWord(g, o, p[..n], s[..m], k);
      OneByte(g, p[..n], p[n], w, s[m]);
      DistanceGrows(w, s[m], s[..m], s[m]);
      w := w + [s[m]];
    } else if p != [] && s != [] && k > 0 && Aligned(g, false, o, p[..n], s[..m], k - 1) {
      w := NearWord(g, o, p[..n], s[..m], k - 1);
      OneByte(g, p[..n], p[n], w, b);
      DistanceGrows(w, b, s[..m], s[m]);
      w := w + [b];
    } else if s != [] && k > 0 && Aligned(g, false, o, p, s[..m], k - 1) {
      w := NearWord(g, o, p, s[..m], k - 1);
      DistanceOneMore(w, s[..m], s[m]);
    } else {
      w := NearWord(g, o, p[..n], s, k - 1);
      OneByte(g, p[..n], p[n], w, b);
      DistanceOneMore(w, s, b);
      w := w + [b];
    }
  }

  /** Being within k edits of a walk is being within edit distance k of a word of it. */
  lemma WithinDistance(g: Graph, o: nat, p: seq<nat>, s: seq<bv8>, k: nat)
    requires g.virtualStarts == {} && Readable(g, p)
    ensures Aligned(g, false, o, p, s, k) <==> exists w :: Spells(g, p, w) && Distance(w, s) <= k
  {
    hide Aligned, Distance, Spells, Readable;
    if Aligned(g, false, o, p, s, k) {
      var w := NearWord(g, o, p, s, k);
    }
    if w :| Spells(g, p, w) && Distance(w, s) <= k {
      FewEdits(g, o, p, s, w);
      MoreEdits(g, false, o, p, s, Distance(w, s), k);
    }
  }

  /** The bytes in which the stretch differs from the word are not read on self-loops of the walk. */
  ghost predicate OffLoops(o: nat, p: seq<nat>, w: seq<bv8>, s: seq<bv8>)
    requires |p| == |w| == |s|
  {
    forall j :: 0 <= j < |p| && w[j] != s[j] ==> p[j] != End(o, p[..j])
  }

  ghost predicate NearByHamming(g: Graph, o: nat, p: seq<nat>, s: seq<bv8>, k: nat, w: seq<bv8>) {
    Spells(g, p, w) && |s| == |p| && Differences(w, s) <= k && OffLoops(o, p, w, s)
  }

  lemma HammingSnoc(g: Graph, o: nat, p: seq<nat>, v: nat, s: seq<bv8>, c: bv8, k: nat, w: seq<bv8>, b: bv8)
    requires Reads(g, v, b) && NearByHamming(g, o, p, s, k, w) && (b != c ==> v != End(o, p))
    ensures NearByHamming(g, o, p + [v], s + [c], k + (if b == c then 0 else 1), w + [b])
  {
    hide Reads, End;
    OneByte(g, p, v, w, b);
    assert (w + [b])[..|w + [b]| - 1] == w && (s + [c])[..|s + [c]| - 1] == s;
    forall j | 0 <= j < |p| + 1 && (w + [b])[j] != (s + [c])[j]
      ensures (p + [v])[j] != End(o, (p + [v])[..j])
    {
      assert (p + [v])[..j] == if j == |p| then p else p[..j];
      if j < |p| {
        assert w[j] != s[j];
      }
    }
  }

  lemma {:induction false} NearHamming(g: Graph, o: nat, p: seq<nat>, s: seq<bv8>, k: nat) returns (w: seq<bv8>)
    requires Readable(g, p) && Aligned(g, true, o, p, s, k)
    ensures NearByHamming(g, o, p, s, k, w)
    decreases |p| + |s|
  {
    hide Reads, Readable, NearByHamming, End;
    var n := |p| - 1;
    if p == [] {
      w := [];
      NoDifference(g, o, k);
    } else {
      var b := ReadableParts(g, p);
      assert p[..n] + [p[n]] == p && s[..|s| - 1] + [s[|s| - 1]] == s;
      if Reads(g, p[n], s[|s| - 1]) && Aligned(g, true, o, p[..n], s[..|s| - 1], k) {
        w := NearHamming(g, o, p[..n], s[..|s| - 1], k);
        HammingSnoc(g, o, p[..n], p[n], s[..|s| - 1], s[|s| - 1], k, w, s[|s| - 1]);
        w := w + [s[|s| - 1]];
      } else {
        w := NearHamming(g, o, p[..n], s[..|s| - 1], k - 1);
        HammingSnoc(g, o, p[..n], p[n], s[..|s| - 1], s[|s| - 1], k - 1, w, b);
        MoreDifferences(g, o, p, s, k, w + [b]);
        w := w + [b];
      }
    }
  }

  lemma NoDifference(g: Graph, o: nat, k: nat)
    ensures NearByHamming(g, o, [], [], k, [])
  {
  }

  lemma MoreDifferences(g: Graph, o: nat, p: seq<nat>, s: seq<bv8>, k: nat, w: seq<bv8>)
    requires NearByHamming(g, o, p, s, k, w) || (k > 0 && NearByHamming(g, o, p, s, k - 1, w))
    ensures NearByHamming(g, o, p, s, k, w)
  {
  }

  lemma {:induction false} FewDifferences(g: Graph, o: nat, p: seq<nat>, s: seq<bv8>, k: nat, w: seq<bv8>)
    requires g.virtualStarts == {} && NearByHamming(g, o, p, s, k, w)
    ensures Aligned(g, true, o, p, s, k)
    decreases |p|
  {
    hide Aligned, Reads;
    if p == [] {
      NothingAligned(g, true, o);
      MoreEdits(g, true, o, [], [], 0, k);
    } else {
      var n := |p| - 1;
      assert p[..n] + [p[n]] == p && s[..n] + [s[n]] == s;
      SpellsParts(g, p, w);
      assert OffLoops(o, p[..n], w[..n], s[..n]) by { OffLoopsPart(o, p, w, s); }
      if w[n] == s[n] {
        FewDifferences(g, o, p[..n], s[..n], k, w[..n]);
        Keep(g, true, o, p[..n], p[n], s[..n], s[n], k);
      } else {
        FewDifferences(g, o, p[..n], s[..n], k - 1, w[..n]);
        Replace(g, true, o, p[..n], p[n], s[..n], s[n], k - 1);
      }
    }
  }

  lemma OffLoopsPart(o: nat, p: seq<nat>, w: seq<bv8>, s: seq<bv8>)
    requires |p| == |w| == |s| > 0 && OffLoops(o, p, w, s)
    ensures OffLoops(o, p[..|p| - 1], w[..|p| - 1], s[..|p| - 1])
  {
    hide End;
    var p', w', s' := p[..|p| - 1], w[..|p| - 1], s[..|p| - 1];
    forall j | 0 <= j < |p'| && w'[j] != s'[j] ensures p'[j] != End(o, p'[..j]) {
      assert p'[..j] == p[..j] && w[j] != s[j];
    }
  }

  /** Without insertions: a word of the same length, with at most k differences, none of them on a self-loop. */
  lemma WithinHamming(g: Graph, o: nat, p: seq<nat>, s: seq<bv8>, k: nat)
    requires g.virtualStarts == {} && Readable(g, p)
    ensures Aligned(g, true, o, p, s, k) <==> exists w :: NearByHamming(g, o, p, s, k, w)
  {
    hide Aligned, NearByHamming, Readable;
    if Aligned(g, true, o, p, s, k) {
      var w := NearHamming(g, o, p, s, k);
    }
    if w :| NearByHamming(g, o, p, s, k, w) {
      FewDifferences(g, o, p, s, k, w);
    }
  }

  // ----- the theorems in words

  /** Every ordinary vertex reads some byte. */
  ghost predicate Reading(g: Graph) { forall v: nat :: N_SPECIALS <= v < g.n ==> ReadsSome(g, v) }

  lemma {:induction false} WalkReadable(g: Graph, o: nat, p: seq<nat>)
    requires g.Valid() && Reading(g) && Walk(g, o, p)
    ensures Readable(g, p)
  {
    hide ReadsSome;
    if p != [] {
      var n := |p| - 1;
      WalkReadable(g, o, p[..n]);
      assert (End(o, p[..n]), p[n]) in g.edges;
      forall j | 0 <= j < |p| ensures ReadsSome(g, p[j]) {
        if j < n {
          assert p[..n][j] == p[j];
        }
      }
    }
  }

  /** A word of the walk p is within distance k of the stretch. */
  ghost predicate Near(g: Graph, cfg: Config, o: nat, p: seq<nat>, s: seq<bv8>, w: seq<bv8>) {
    if cfg.hamming then NearByHamming(g, o, p, s, cfg.dist, w)
    else Spells(g, p, w) && Distance(w, s) <= cfg.dist
  }

  lemma WithinNear(g: Graph, cfg: Config, o: nat, p: seq<nat>, s: seq<bv8>)
    requires g.virtualStarts == {} && Readable(g, p)
    ensures Aligned(g, cfg.hamming, o, p, s, cfg.dist) <==> exists w :: Near(g, cfg, o, p, s, w)
  {
    hide Aligned, Spells, Distance, NearByHamming, Readable;
    if cfg.hamming {
      WithinHamming(g, o, p, s, cfg.dist);
      if w :| NearByHamming(g, o, p, s, cfg.dist, w) {
        assert Near(g, cfg, o, p, s, w);
      }
    } else {
      WithinDistance(g, o, p, s, cfg.dist);
      if w :| Spells(g, p, w) && Distance(w, s) <= cfg.dist {
        assert Near(g, cfg, o, p, s, w);
      }
    }
  }

  /** The stretch input[a..i] is near the word w of a walk from o that may start there and raises e. */
  ghost predicate NearMatch(g: Graph, cfg: Config, notEod: bool, input: seq<bv8>, o: nat, a: nat, i: nat, p: seq<nat>,
                            e: nat, w: seq<bv8>)
  {
    && IsAnyStart(o) && (o == START ==> a == 0) && a <= i <= |input| && Walk(g, o, p)
    && Near(g, cfg, o, p, input[a..i], w) && RaisesHere(g, notEod, input, i, End(o, p), e)
  }

  lemma FuzzyInWords(g: Graph, cfg: Config, notEod: bool, input: seq<bv8>, o: nat, a: nat, i: nat, p: seq<nat>, e: nat)
    requires g.Valid() && Reading(g) && g.virtualStarts == {}
    ensures Fuzzy(g, cfg, notEod, input, o, a, i, p, e) <==>
            exists w :: NearMatch(g, cfg, notEod, input, o, a, i, p, e, w)
  {
    hide Aligned, Walk, RaisesHere, Near, Reading, Readable;
    if a <= i <= |input| && Walk(g, o, p) {
      WalkReadable(g, o, p);
      WithinNear(g, cfg, o, p, input[a..i]);
      if w :| Near(g, cfg, o, p, input[a..i], w) {
        assert Fuzzy(g, cfg, notEod, input, o, a, i, p, e) <==> NearMatch(g, cfg, notEod, input, o, a, i, p, e, w);
      }
    }
  }

  ghost predicate MatchedWord(g: Graph, cfg: Config, notEod: bool, input: seq<bv8>, b: nat, e: nat) {
    exists o, a: nat, i: nat, p, w :: NearMatch(g, cfg, notEod, input, o, a, i, p, e, w) && StartOf(a, i) == b
  }

  lemma MatchedInWords(g: Graph, cfg: Config, notEod: bool, input: seq<bv8>, b: nat, e: nat)
    requires g.Valid() && Reading(g) && g.virtualStarts == {}
    ensures Matched(g, cfg, notEod, input, b, e) <==> MatchedWord(g, cfg, notEod, input, b, e)
  {
    hide Fuzzy, NearMatch, Reading;
    if o, a: nat, i: nat, p :| Fuzzy(g, cfg, notEod, input, o, a, i, p, e) && StartOf(a, i) == b {
      FuzzyInWords(g, cfg, notEod, input, o, a, i, p, e);
    }
    if o, a: nat, i: nat, p, w :| NearMatch(g, cfg, notEod, input, o, a, i, p, e, w) && StartOf(a, i) == b {
      FuzzyInWords(g, cfg, notEod, input, o, a, i, p, e);
    }
  }

  /**
   findMatches with a distance returns (b, e) exactly when some stretch with start b is
   within that distance of a word whose walk raises e, no such stretch for e has an
   earlier start, and b is below 2^32.
   */
  lemma WordsWithinDistance(g: Graph, cfg: Config, notEod: bool, input: seq<bv8>, b: nat, e: nat)
    requires Holder(g) && Plain(g) && Reading(g) && g.virtualStarts == {}
    ensures (b, e) in Filtered(RawMatches(g, cfg, false, notEod, input)) <==>
            && b < TWO32 && MatchedWord(g, cfg, notEod, input, b, e)
            && forall c: nat :: MatchedWord(g, cfg, notEod, input, c, e) ==> b <= c
  {
    hide Plain, Reading, Filtered, RawMatches, Matched, MatchedWord;
    ApproximateMatching(g, cfg, notEod, input, b, e);
    forall c: nat
      ensures Matched(g, cfg, notEod, input, c, e) <==> MatchedWord(g, cfg, notEod, input, c, e)
    {
      MatchedInWords(g, cfg, notEod, input, c, e);
    }
  }

  // ----- a replaced byte on a self-loop

  function ByteOf(n: int): bv8
    requires 0 <= n < 256
  {
    n as bv8
  }

  function AnyByte(): set<bv8> { set n: int | 0 <= n < 256 :: ByteOf(n) }

  lemma EveryByte(b: bv8)
    ensures b in AnyByte()
  {
    assert ByteOf(b as int) == b;
  }

  /** ^a+b: vertex 4 reads a's, vertex 5 the b. */
  function PlusGraph(): Graph {
    Graph(6, {(START, START_DS), (START_DS, START_DS), (ACCEPT, ACCEPT_EOD), (START, 4), (4, 4), (4, 5), (5, ACCEPT)},
          map[], [AnyByte(), AnyByte(), {}, {}, {0x61}, {0x62}], {}, [{}, {}, {}, {}, {}, {0}])
  }

  lemma PlusGraphIsPlain()
    ensures var g := PlusGraph(); Holder(g) && Plain(g) && Reading(g)
  {
    var g := PlusGraph();
    forall b: bv8 ensures b in g.reach[START_DS] {
      EveryByte(b);
    }
    assert Reads(g, 4, 0x61) && Reads(g, 5, 0x62);
    forall v: nat | N_SPECIALS <= v < g.n ensures ReadsSome(g, v) { }
  }

  /** "axab" differs in one byte from "aaab", which the graph reads. */
  lemma OneDifference()
    ensures var g, w, s := PlusGraph(), [0x61, 0x61, 0x61, 0x62], [0x61, 0x78, 0x61, 0x62];
            Walk(g, START, [4, 4, 4, 5]) && Spells(g, [4, 4, 4, 5], w) && Differences(w, s) == 1 &&
            RaisesHere(g, true, s, 4, 5, 4)
  {
    var g, p := PlusGraph(), [4, 4, 4, 5];
    assert p[..3] == [4, 4, 4] && p[..3][..2] == [4, 4] && p[..2][..1] == [4] && p[..1][..0] == [];
    assert Walk(g, START, [4]);
    assert [4, 4][..1] == [4] && Walk(g, START, [4, 4]);
    assert [4, 4, 4][..2] == [4, 4] && Walk(g, START, [4, 4, 4]);
    var w: seq<bv8>, s: seq<bv8> := [0x61, 0x61, 0x61, 0x62], [0x61, 0x78, 0x61, 0x62];
    assert w[..3] == [0x61, 0x61, 0x61] && s[..3] == [0x61, 0x78, 0x61];
    assert w[..3][..2] == [0x61, 0x61] && s[..3][..2] == [0x61, 0x78];
    assert w[..3][..2][..1] == [0x61] && s[..3][..2][..1] == [0x61];
    assert Differences([0x61], [0x61]) == 0;
    assert Differences([0x61, 0x61], [0x61, 0x78]) == 1;
    assert Differences([0x61, 0x61, 0x61], [0x61, 0x78, 0x61]) == 1;
    assert 0 in g.adjusts[5] && EndOf(4, 0) == 4;
  }

  /** The only walk of length four that raises anything is that one. */
  lemma OnlyWalk(o: nat, p: seq<nat>, e: nat, i: nat)
    requires var g := PlusGraph();
             IsAnyStart(o) && Walk(g, o, p) && (exists t: nat :: Raises(g, i, End(o, p), t, e))
    ensures o == START && p != [] && p[|p| - 1] == 5 && (|p| == 4 ==> p == [4, 4, 4, 5])
  {
    var g := PlusGraph();
    assert End(o, p) == 5;
    Back(o, p);
    Back(o, p[..|p| - 1]);
    if |p| == 4 {
      Back(o, p[..2]);
      Back(o, p[..1]);
      assert p[..3][..2] == p[..2] && p[..2][..1] == p[..1] && p[..1][..0] == [];
    }
    FromStart(o, p);
  }

  lemma Back(o: nat, p: seq<nat>)
    requires IsAnyStart(o) && Walk(PlusGraph(), o, p)
    ensures p != [] ==> Walk(PlusGraph(), o, p[..|p| - 1])
    ensures p != [] && p[|p| - 1] == 5 ==> End(o, p[..|p| - 1]) == 4
    ensures p != [] && p[|p| - 1] == 4 ==> End(o, p[..|p| - 1]) == 4 || End(o, p[..|p| - 1]) == START
  {
  }

  lemma {:induction false} FromStart(o: nat, p: seq<nat>)
    requires IsAnyStart(o) && Walk(PlusGraph(), o, p) && p != []
    ensures o == START
  {
    if |p| > 1 {
      FromStart(o, p[..|p| - 1]);
    }
  }

  /**
   With Hamming distance 1 the end of "axab" is not reported: replacements do not follow
   self-loops, although "aaab" is a word of the graph one byte away.
   */
  lemma LoopReplacementLost(b: nat)
    ensures var g := PlusGraph();
            g.Valid() && (b, 4) !in RawMatches(g, Config(true, 1), false, true, [0x61, 0x78, 0x61, 0x62])
  {
    hide RawMatches, Fuzzy;
    var g, cfg, input: seq<bv8> := PlusGraph(), Config(true, 1), [0x61, 0x78, 0x61, 0x62];
    PlusGraphIsPlain();
    FuzzyEnds(g, cfg, true, input, 4);
    if o, a: nat, i: nat, p :| Fuzzy(g, cfg, true, input, o, a, i, p, 4) {
      NotFuzzy(o, a, i, p);
    }
  }

  lemma NotFuzzy(o: nat, a: nat, i: nat, p: seq<nat>)
    ensures !Fuzzy(PlusGraph(), Config(true, 1), true, [0x61, 0x78, 0x61, 0x62], o, a, i, p, 4)
  {
    hide Aligned, Walk, Readable, PlusGraph;
    var g, input: seq<bv8> := PlusGraph(), [0x61, 0x78, 0x61, 0x62];
    if Fuzzy(g, Config(true, 1), true, input, o, a, i, p, 4) {
      EndsWhereItStands(o, p, i);
      OnlyWalk(o, p, 4, i);
      PlusGraphIsPlain();
      WalkReadable(g, o, p);
      var w := NearHamming(g, o, p, input[a..i], 1);
      assert input[0..4] == input;
      ReadsOnlyA(p, w);
    }
  }

  lemma EndsWhereItStands(o: nat, p: seq<nat>, i: nat)
    requires i <= 4 && Raises(PlusGraph(), i, End(o, p), ACCEPT, 4)
    ensures i == 4
  {
  }

  lemma ReadsOnlyA(p: seq<nat>, w: seq<bv8>)
    requires Spells(PlusGraph(), p, w) && |p| == 4 && p[1] == 4
    ensures w[1] == 0x61
  {
    assert Reads(PlusGraph(), p[1], w[1]);
  }
}
