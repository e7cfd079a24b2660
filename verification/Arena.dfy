/**
 Hand-packed allocations: a pointer moves through one block of memory, is rounded
 up where an alignment is wanted, and leaves behind the regions it has stepped over.
 */
module Arena {
  function RoundUp(x: nat, n: nat): (r: nat)
    requires n > 0
    ensures x <= r < x + n && r % n == 0
  {
    RoundUpFacts(x, n);
    (x + n - 1) / n * n
  }

  lemma RoundUpFacts(x: nat, n: nat)
    requires n > 0
    ensures var r := (x + n - 1) / n * n; x <= r < x + n && r % n == 0
  {
    var q, m := (x + n - 1) / n, (x + n - 1) % n;
    assert x + n - 1 == n * q + m;
    MultipleOf(q, n);
  }

  lemma {:induction false} MultipleOf(q: nat, n: nat)
    requires n > 0
    ensures (q * n) % n == 0
  {
    if q > 0 {
      MultipleOf(q - 1, n);
      assert q * n == (q - 1) * n + n;
      AddMultiple((q - 1) * n, n);
    }
  }

  lemma AddMultiple(x: nat, n: nat)
    requires n > 0
    ensures (x + n) % n == x % n
  {
    var q, m := x / n, x % n;
    assert x + n == n * (q + 1) + m;
    SameRemainder(x + n, n, q + 1, m);
  }

  lemma SameRemainder(x: nat, n: nat, q: nat, m: nat)
    requires n > 0 && x == n * q + m && m < n
    ensures x % n == m
  {
    var d, e := x / n, x % n;
    assert n * d + e == n * q + m;
    if d > q {
      assert n * d >= n * (q + 1) by { Ordered(n, q + 1, d); }
      assert false;
    }
    if d < q {
      assert n * q >= n * (d + 1) by { Ordered(n, d + 1, q); }
      assert false;
    }
  }

  lemma Ordered(n: nat, a: nat, b: nat)
    requires a <= b
    ensures n * a <= n * b
  {
  }

  /** Round the pointer up, or step over `size` bytes whose start has to be a multiple of `align`. */
  datatype Step = Align(n: nat) | Take(size: nat, align: nat)

  datatype Region = Region(at: nat, size: nat, align: nat) {
    function End(): nat { at + size }
  }

  predicate Sane(steps: seq<Step>) {
    forall i :: 0 <= i < |steps| ==> if steps[i].Align? then steps[i].n > 0 else steps[i].align > 0
  }

  function Regions(cur: nat, steps: seq<Step>): seq<Region>
    requires Sane(steps)
    decreases |steps|
  {
    if steps == [] then []
    else match steps[0]
      case Align(n) => Regions(RoundUp(cur, n), steps[1..])
      case Take(size, align) => [Region(cur, size, align)] + Regions(cur + size, steps[1..])
  }

  function EndOf(cur: nat, steps: seq<Step>): nat
    requires Sane(steps)
    decreases |steps|
  {
    if steps == [] then cur
    else match steps[0]
      case Align(n) => EndOf(RoundUp(cur, n), steps[1..])
      case Take(size, _) => EndOf(cur + size, steps[1..])
  }

  /** The moving pointer. */
  method Carve(start: nat, steps: seq<Step>) returns (regions: seq<Region>, current: nat)
    requires Sane(steps)
    ensures regions == Regions(start, steps) && current == EndOf(start, steps)
  {
    current, regions := start, [];
    assert steps[0..] == steps;
    for i := 0 to |steps|
      invariant regions + Regions(current, steps[i..]) == Regions(start, steps)
      invariant EndOf(current, steps[i..]) == EndOf(start, steps)
    {
      assert steps[i..][1..] == steps[i + 1..];
      match steps[i] {
        case Align(n) => current := RoundUp(current, n);
        case Take(size, align) =>
          regions := regions + [Region(current, size, align)];
          current := current + size;
      }
    }
  }

  /** Bytes stepped over, and the most that rounding can add. */
  function Bytes(steps: seq<Step>): nat {
    if steps == [] then 0 else (if steps[0].Take? then steps[0].size else 0) + Bytes(steps[1..])
  }

  function Slack(steps: seq<Step>): nat
    requires Sane(steps)
  {
    if steps == [] then 0 else (if steps[0].Align? then steps[0].n - 1 else 0) + Slack(steps[1..])
  }

  /** The regions follow one another between `lo` and `hi`. */
  predicate InOrder(rs: seq<Region>, lo: nat, hi: nat) {
    if rs == [] then lo <= hi else lo <= rs[0].at && InOrder(rs[1..], rs[0].End(), hi)
  }

  lemma {:induction false} LowerStart(rs: seq<Region>, lo: nat, lower: nat, hi: nat)
    requires InOrder(rs, lo, hi) && lower <= lo
    ensures InOrder(rs, lower, hi)
  {
  }

  lemma {:induction false} CarvedInOrder(cur: nat, steps: seq<Step>)
    requires Sane(steps)
    ensures InOrder(Regions(cur, steps), cur, EndOf(cur, steps))
    ensures EndOf(cur, steps) <= cur + Bytes(steps) + Slack(steps)
    decreases |steps|
  {
    hide RoundUp;
    if steps != [] {
      match steps[0] {
        case Align(n) =>
          CarvedInOrder(RoundUp(cur, n), steps[1..]);
          LowerStart(Regions(RoundUp(cur, n), steps[1..]), RoundUp(cur, n), cur, EndOf(cur, steps));
        case Take(size, align) =>
          CarvedInOrder(cur + size, steps[1..]);
          assert Regions(cur, steps)[1..] == Regions(cur + size, steps[1..]);
      }
    }
  }

  /** So they are pairwise disjoint and stay between the two bounds. */
  lemma {:induction false} InOrderIsDisjoint(rs: seq<Region>, lo: nat, hi: nat, i: nat, j: nat)
    requires InOrder(rs, lo, hi) && i < j < |rs|
    ensures lo <= rs[i].at && rs[i].End() <= rs[j].at && rs[j].End() <= hi
    decreases |rs|
  {
    if i > 0 {
      InOrderIsDisjoint(rs[1..], rs[0].End(), hi, i - 1, j - 1);
    } else {
      InOrderBounds(rs[1..], rs[0].End(), hi, j - 1);
    }
  }

  lemma {:induction false} InOrderBounds(rs: seq<Region>, lo: nat, hi: nat, j: nat)
    requires InOrder(rs, lo, hi) && j < |rs|
    ensures lo <= rs[j].at && rs[j].End() <= hi
    decreases |rs|
  {
    if j > 0 {
      InOrderBounds(rs[1..], rs[0].End(), hi, j - 1);
    } else {
      InOrderEnds(rs[1..], rs[0].End(), hi);
    }
  }

  lemma {:induction false} InOrderEnds(rs: seq<Region>, lo: nat, hi: nat)
    requires InOrder(rs, lo, hi)
    ensures lo <= hi
    decreases |rs|
  {
    if rs != [] {
      InOrderEnds(rs[1..], rs[0].End(), hi);
    }
  }

  // ----- alignment

  /** What is known of the pointer's alignment after stepping over `size` bytes from a multiple of `a`. */
  function Kept(a: nat, size: nat): nat {
    if a == 0 then 1
    else if size % a == 0 then a
    else if a % 8 == 0 && size % 8 == 0 then 8
    else if a % 4 == 0 && size % 4 == 0 then 4
    else 1
  }

  /** From the alignment `a` of the pointer it follows that every region is aligned. */
  predicate Checks(a: nat, steps: seq<Step>)
    requires Sane(steps)
    decreases |steps|
  {
    steps == [] ||
    match steps[0]
    case Align(n) => Checks(n, steps[1..])
    case Take(size, align) => a % align == 0 && Checks(Kept(a, size), steps[1..])
  }

  predicate AllAligned(rs: seq<Region>) {
    forall i :: 0 <= i < |rs| ==> rs[i].align > 0 && rs[i].at % rs[i].align == 0
  }

  lemma Divides(c: nat, a: nat, n: nat)
    requires a > 0 && n > 0 && c % a == 0 && a % n == 0
    ensures c % n == 0
  {
    var q, k := c / a, a / n;
    assert c == a * q && a == n * k;
    assert c == (q * k) * n by { Rearrange(q, k, n); }
    MultipleOf(q * k, n);
  }

  lemma Rearrange(q: nat, k: nat, n: nat)
    ensures (n * k) * q == (q * k) * n
  {
  }

  lemma SumMultiple(a: nat, b: nat, n: nat)
    requires n > 0 && a % n == 0 && b % n == 0
    ensures (a + b) % n == 0
  {
    var p, q := a / n, b / n;
    assert a == n * p && b == n * q;
    assert a + b == n * (p + q) by { Distribute(n, p, q); }
    SameRemainder(a + b, n, p + q, 0);
  }

  lemma Distribute(n: nat, p: nat, q: nat)
    ensures n * p + n * q == n * (p + q)
  {
  }

  lemma KeptDivides(a: nat, size: nat)
    requires a > 0
    ensures Kept(a, size) > 0 && a % Kept(a, size) == 0 && size % Kept(a, size) == 0
  {
    SameRemainder(a, a, 1, 0);
  }

  lemma KeptHolds(c: nat, a: nat, size: nat)
    requires a > 0 && c % a == 0
    ensures Kept(a, size) > 0 && (c + size) % Kept(a, size) == 0
  {
    hide Kept;
    KeptDivides(a, size);
    Divides(c, a, Kept(a, size));
    SumMultiple(c, size, Kept(a, size));
  }

  lemma {:induction false} CheckedIsAligned(cur: nat, a: nat, steps: seq<Step>)
    requires Sane(steps) && a > 0 && cur % a == 0 && Checks(a, steps)
    ensures AllAligned(Regions(cur, steps))
    decreases |steps|
  {
    hide RoundUp, Kept;
    if steps != [] {
      match steps[0] {
        case Align(n) => CheckedIsAligned(RoundUp(cur, n), n, steps[1..]);
        case Take(size, align) =>
          KeptHolds(cur, a, size);
          Divides(cur, a, align);
          CheckedIsAligned(cur + size, Kept(a, size), steps[1..]);
      }
    }
  }

  // ----- runs of equal steps, and joining runs

  function Repeat(n: nat, s: Step): (r: seq<Step>)
    ensures |r| == n && forall i :: 0 <= i < n ==> r[i] == s
  {
    seq(n, _ => s)
  }

  lemma {:induction false} RepeatBytes(n: nat, size: nat, align: nat)
    requires align > 0
    ensures Sane(Repeat(n, Take(size, align)))
    ensures Bytes(Repeat(n, Take(size, align))) == n * size && Slack(Repeat(n, Take(size, align))) == 0
  {
    if n > 0 {
      RepeatBytes(n - 1, size, align);
      assert Repeat(n, Take(size, align))[1..] == Repeat(n - 1, Take(size, align));
    }
  }

  lemma {:induction false} RepeatChecks(n: nat, size: nat, align: nat, more: seq<Step>)
    requires align > 0 && size % align == 0 && Sane(more) && Checks(align, more)
    ensures Sane(Repeat(n, Take(size, align)) + more) && Checks(align, Repeat(n, Take(size, align)) + more)
  {
    if n == 0 {
      assert Repeat(n, Take(size, align)) + more == more;
    } else {
      RepeatChecks(n - 1, size, align, more);
      var all := Repeat(n, Take(size, align)) + more;
      assert all[1..] == Repeat(n - 1, Take(size, align)) + more;
      assert align % align == 0;
    }
  }

  lemma {:induction false} Joined(a: seq<Step>, b: seq<Step>)
    requires Sane(a) && Sane(b)
    ensures Sane(a + b) && Bytes(a + b) == Bytes(a) + Bytes(b) && Slack(a + b) == Slack(a) + Slack(b)
  {
    if a == [] {
      assert a + b == b;
    } else {
      assert (a + b)[1..] == a[1..] + b;
      Joined(a[1..], b);
    }
  }

  lemma Short(a: Step, b: Step, c: Step, d: Step)
    requires Sane([a]) && Sane([b]) && Sane([c]) && Sane([d])
    ensures Sane([a, b]) && Sane([a, b, c]) && Sane([a, b, c, d])
    ensures Bytes([a, b]) == Bytes([a]) + Bytes([b]) && Slack([a, b]) == Slack([a]) + Slack([b])
    ensures Bytes([a, b, c]) == Bytes([a]) + Bytes([b]) + Bytes([c])
    ensures Slack([a, b, c]) == Slack([a]) + Slack([b]) + Slack([c])
    ensures Bytes([a, b, c, d]) == Bytes([a]) + Bytes([b]) + Bytes([c]) + Bytes([d])
    ensures Slack([a, b, c, d]) == Slack([a]) + Slack([b]) + Slack([c]) + Slack([d])
  {
    assert [a, b] == [a] + [b] && [a, b, c] == [a, b] + [c] && [a, b, c, d] == [a, b, c] + [d];
    Joined([a], [b]);
    Joined([a, b], [c]);
    Joined([a, b, c], [d]);
  }

  lemma Single(size: nat, align: nat, n: nat)
    requires align > 0 && n > 0
    ensures Sane([Take(size, align)]) && Bytes([Take(size, align)]) == size && Slack([Take(size, align)]) == 0
    ensures Sane([Align(n)]) && Bytes([Align(n)]) == 0 && Slack([Align(n)]) == n - 1
  {
  }

  /** Steps that keep to multiples of eight. */
  predicate Eights(steps: seq<Step>) {
    forall i :: 0 <= i < |steps| ==>
      (steps[i].Align? && steps[i].n == 8) || (steps[i].Take? && steps[i].align == 8 && steps[i].size % 8 == 0)
  }

  /** The steps check out from every multiple of eight. */
  ghost predicate ChecksFromEight(steps: seq<Step>)
    requires Sane(steps)
  {
    forall a: nat :: a > 0 && a % 8 == 0 ==> Checks(a, steps)
  }

  lemma KeptEight(a: nat, size: nat)
    requires a > 0 && a % 8 == 0 && size % 8 == 0
    ensures Kept(a, size) > 0 && Kept(a, size) % 8 == 0
  {
  }

  lemma {:induction false} EightsCheck(steps: seq<Step>, more: seq<Step>)
    requires Eights(steps) && Sane(more) && ChecksFromEight(more)
    ensures Sane(steps + more) && ChecksFromEight(steps + more)
  {
    if steps == [] {
      assert steps + more == more;
    } else {
      var all := steps + more;
      assert all[1..] == steps[1..] + more;
      EightsCheck(steps[1..], more);
      forall a: nat | a > 0 && a % 8 == 0 ensures Checks(a, all) {
        if steps[0].Take? {
          KeptEight(a, steps[0].size);
        }
      }
    }
  }

  // ----- sizes and alignments, region by region

  /** Size and alignment of each region. */
  function Shapes(rs: seq<Region>): (r: seq<(nat, nat)>)
    ensures |r| == |rs| && forall i :: 0 <= i < |rs| ==> r[i] == (rs[i].size, rs[i].align)
  {
    seq(|rs|, i requires 0 <= i < |rs| => (rs[i].size, rs[i].align))
  }

  function OneWanted(s: Step): seq<(nat, nat)> { if s.Take? then [(s.size, s.align)] else [] }

  function Wanted(steps: seq<Step>): seq<(nat, nat)> {
    if steps == [] then [] else OneWanted(steps[0]) + Wanted(steps[1..])
  }

  lemma {:induction false} CarvedAsWanted(cur: nat, steps: seq<Step>)
    requires Sane(steps)
    ensures Shapes(Regions(cur, steps)) == Wanted(steps)
    decreases |steps|
  {
    hide RoundUp;
    if steps != [] {
      match steps[0] {
        case Align(n) => CarvedAsWanted(RoundUp(cur, n), steps[1..]);
        case Take(size, align) =>
          CarvedAsWanted(cur + size, steps[1..]);
          var rest := Regions(cur + size, steps[1..]);
          assert Shapes([Region(cur, size, align)] + rest) == [(size, align)] + Shapes(rest);
      }
    }
  }

  lemma {:induction false} WantedOfTwo(a: seq<Step>, b: seq<Step>)
    ensures Wanted(a + b) == Wanted(a) + Wanted(b)
  {
    if a == [] {
      assert a + b == b;
    } else {
      assert (a + b)[1..] == a[1..] + b;
      WantedOfTwo(a[1..], b);
    }
  }

  lemma {:induction false} WantedRepeat(n: nat, size: nat, align: nat)
    ensures Wanted(Repeat(n, Take(size, align))) == seq(n, _ => (size, align))
  {
    if n > 0 {
      WantedRepeat(n - 1, size, align);
      assert Repeat(n, Take(size, align))[1..] == Repeat(n - 1, Take(size, align));
    }
  }

  lemma WantedShort(a: Step, b: Step, c: Step, d: Step)
    ensures Wanted([a]) == OneWanted(a) && Wanted([a, b]) == OneWanted(a) + OneWanted(b)
    ensures Wanted([a, b, c]) == OneWanted(a) + OneWanted(b) + OneWanted(c)
    ensures Wanted([a, b, c, d]) == OneWanted(a) + OneWanted(b) + OneWanted(c) + OneWanted(d)
  {
    hide OneWanted;
    assert Wanted([d]) == OneWanted(d);
    assert [a, b] == [a] + [b] && [a, b, c] == [a, b] + [c] && [a, b, c, d] == [a, b, c] + [d];
    WantedOfTwo([a], [b]);
    WantedOfTwo([a, b], [c]);
    WantedOfTwo([a, b, c], [d]);
  }
}
