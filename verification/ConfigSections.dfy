/** `extract_sections` of the configuration generator: flags are walked through in
    sorted order and cut into sections wherever the part before the first '_'
    changes.  Every flag lands in one section; flags of one prefix land in the
    same one exactly when sorting keeps them together. */
module ConfigSections {

  /** Where the first '_' from `i` on stands, or the end. */
  function UnderscoreAt(s: string, i: nat): (r: nat)
    requires i <= |s|
    ensures i <= r <= |s|
    decreases |s| - i
  {
    if i == |s| || s[i] == '_' then i else UnderscoreAt(s, i + 1)
  }

  /** `name.split("_")[0]`. */
  function Segment(name: string): (r: string) {
    name[..UnderscoreAt(name, 0)]
  }

  lemma {:induction false} UnderscoreFirst(s: string, i: nat)
    requires i <= |s|
    ensures var r := UnderscoreAt(s, i);
            (forall k :: i <= k < r ==> s[k] != '_') && (r < |s| ==> s[r] == '_')
    decreases |s| - i
  {
    if i < |s| && s[i] != '_' { UnderscoreFirst(s, i + 1); }
  }

  lemma {:induction false} SegmentIs(name: string)
    ensures var r := Segment(name); '_' !in r && r <= name && (|r| < |name| ==> name[|r|] == '_')
  {
    UnderscoreFirst(name, 0);
  }

  /** Strict lexicographic order. */
  predicate Less(a: string, b: string) {
    b != "" && (a == "" || a[0] < b[0] || (a[0] == b[0] && Less(a[1..], b[1..])))
  }

  /** What `sorted` makes of the distinct flag names. */
  predicate Sorted(names: seq<string>) {
    forall i, j :: 0 <= i < j < |names| ==> Less(names[i], names[j])
  }

  type Section = (string, seq<string>)

  // ---- runs of equal segments

  /** The first `n` names cut where the segment changes. */
  function Runs(names: seq<string>, n: nat): (r: seq<Section>)
    requires n <= |names|
    ensures n > 0 ==> r != [] && r[|r| - 1].0 == Segment(names[n - 1])
  {
    if n == 0 then []
    else
      var r, name := Runs(names, n - 1), names[n - 1];
      if r != [] && r[|r| - 1].0 == Segment(name)
      then r[..|r| - 1] + [(Segment(name), r[|r| - 1].1 + [name])]
      else r + [(Segment(name), [name])]
  }

  /** The next name extends the last run or starts a new one. */
  lemma {:induction false} RunStep(names: seq<string>, n: nat, t: nat)
    requires 0 < n <= |names| && t < |Runs(names, n)|
    ensures var r, p := Runs(names, n - 1), Runs(names, n)[t];
            if t < |Runs(names, n)| - 1 then t < |r| && p == r[t]
            else p.0 == Segment(names[n - 1]) &&
                 if t < |r| then t == |r| - 1 && r[t].0 == p.0 && p.1 == r[t].1 + [names[n - 1]]
                 else t == |r| && p.1 == [names[n - 1]] && (r != [] ==> r[t - 1].0 != p.0)
  {
  }

  /** Of the first `n` runs, those of two or more flags. */
  function Big(runs: seq<Section>, n: nat): (r: seq<Section>)
    requires n <= |runs|
  {
    if n == 0 then []
    else if |runs[n - 1].1| >= 2 then Big(runs, n - 1) + [runs[n - 1]]
    else Big(runs, n - 1)
  }

  /** The flags of the others. */
  function Small(runs: seq<Section>, n: nat): (r: seq<string>)
    requires n <= |runs|
  {
    if n == 0 then []
    else if |runs[n - 1].1| >= 2 then Small(runs, n - 1)
    else Small(runs, n - 1) + runs[n - 1].1
  }

  lemma {:induction false} SameFront(r: seq<Section>, r': seq<Section>, n: nat)
    requires n <= |r| && n <= |r'| && forall i :: 0 <= i < n ==> r[i] == r'[i]
    ensures Big(r, n) == Big(r', n) && Small(r, n) == Small(r', n)
  {
    if n > 0 { SameFront(r, r', n - 1); }
  }

  /** The walk: what is open is the last run, the rest is already filed. */
  ghost predicate Walked(runs: seq<Section>, sections: seq<Section>, other: seq<string>, segment: string,
      flags: seq<string>) {
    if runs == [] then sections == [] && other == [] && segment == "" && flags == []
    else
      var n := |runs| - 1;
      sections == Big(runs, n) && other == Small(runs, n) && runs[n] == (segment, flags)
  }

  /** Close the open run: fewer than two flags go to "other". */
  method File(sections: seq<Section>, other: seq<string>, segment: string, flags: seq<string>, ghost runs: seq<Section>)
    returns (sections': seq<Section>, other': seq<string>)
    requires Walked(runs, sections, other, segment, flags)
    ensures sections' == Big(runs, |runs|) && other' == Small(runs, |runs|)
  {
    if |flags| < 2 {
      sections', other' := sections, other + flags;
    } else {
      sections', other' := sections + [(segment, flags)], other;
    }
  }

  /** The next flag joins the open run. */
  lemma {:induction false} WalkJoin(names: seq<string>, i: nat, sections: seq<Section>, other: seq<string>,
      segment: string, flags: seq<string>)
    requires i < |names| && Walked(Runs(names, i), sections, other, segment, flags) && Segment(names[i]) == segment
    ensures Walked(Runs(names, i + 1), sections, other, segment, flags + [names[i]])
  {
    var runs, next := Runs(names, i), Runs(names, i + 1);
    RunStep(names, i + 1, |next| - 1);
    if runs == [] { assert flags + [names[i]] == [names[i]]; }
    SameFront(runs, next, |next| - 1);
  }

  /** The next flag opens a run of its own. */
  lemma {:induction false} WalkOpen(names: seq<string>, i: nat, segment: string)
    requires i < |names| && Segment(names[i]) != segment
    requires var runs := Runs(names, i); if runs == [] then segment == "" else runs[|runs| - 1].0 == segment
    ensures var runs := Runs(names, i);
            Walked(Runs(names, i + 1), Big(runs, |runs|), Small(runs, |runs|), Segment(names[i]), [names[i]])
  {
    var runs, next := Runs(names, i), Runs(names, i + 1);
    RunStep(names, i + 1, |next| - 1);
    SameFront(runs, next, |runs|);
  }

  method ExtractSections(names: seq<string>) returns (sections: seq<Section>)
    ensures var runs := Runs(names, |names|);
            sections == Big(runs, |runs|) + [("other", Small(runs, |runs|))]
    ensures sections == Shared(names, |names|) + [("other", Alone(names, |names|))]
  {
    SectionsAreBlocks(names);
    sections := [];
    var other: seq<string>, segment, flags: seq<string> := [], "", [];
    for i := 0 to |names|
      invariant Walked(Runs(names, i), sections, other, segment, flags)
    {
      var name := names[i];
      if Segment(name) == segment {
        WalkJoin(names, i, sections, other, segment, flags);
        flags := flags + [name];
      } else {
        WalkOpen(names, i, segment);
        sections, other := File(sections, other, segment, flags, Runs(names, i));
        segment, flags := Segment(name), [name];
      }
    }
    sections, other := File(sections, other, segment, flags, Runs(names, |names|));
    sections := sections + [("other", other)];
  }

  // ---- the sections, read off the positions of the names

  /** Where the block of names with the segment of name `i` begins. */
  function From(names: seq<string>, i: nat): (a: nat)
    requires i < |names|
    ensures a <= i
  {
    if i == 0 || Segment(names[i - 1]) != Segment(names[i]) then i else From(names, i - 1)
  }

  /** The next name has another segment, or there is none. */
  predicate Ends(names: seq<string>, i: nat)
    requires i < |names|
  {
    i + 1 == |names| || Segment(names[i + 1]) != Segment(names[i])
  }

  /** The blocks of two or more names that end among the first `n`, in order. */
  function Shared(names: seq<string>, n: nat): (r: seq<Section>)
    requires n <= |names|
  {
    if n == 0 then []
    else if Ends(names, n - 1) && From(names, n - 1) < n - 1
    then Shared(names, n - 1) + [(Segment(names[n - 1]), names[From(names, n - 1)..n])]
    else Shared(names, n - 1)
  }

  /** The names that are a block of their own, in order. */
  function Alone(names: seq<string>, n: nat): (r: seq<string>)
    requires n <= |names|
  {
    if n == 0 then []
    else if Ends(names, n - 1) && From(names, n - 1) == n - 1 then Alone(names, n - 1) + [names[n - 1]]
    else Alone(names, n - 1)
  }

  /** Nothing ends between the beginning of a block and a name in it. */
  lemma {:induction false} InsideBlock(names: seq<string>, i: nat)
    requires i < |names|
    ensures Shared(names, i) == Shared(names, From(names, i)) && Alone(names, i) == Alone(names, From(names, i))
  {
    if From(names, i) < i { InsideBlock(names, i - 1); }
  }

  /** After `n` names the open run is the block of the last, and what is filed are
      the blocks before it. */
  ghost predicate AtBlock(names: seq<string>, n: nat, r: seq<Section>)
    requires 0 < n <= |names|
  {
    var a := From(names, n - 1);
    && r != [] && r[|r| - 1] == (Segment(names[n - 1]), names[a..n])
    && Big(r, |r| - 1) == Shared(names, a) && Small(r, |r| - 1) == Alone(names, a)
  }

  lemma {:induction false} BlockGoesOn(names: seq<string>, n: nat, r: seq<Section>, next: seq<Section>)
    requires 0 < n < |names| && AtBlock(names, n, r) && Segment(names[n - 1]) == Segment(names[n])
    requires next == r[..|r| - 1] + [(Segment(names[n]), r[|r| - 1].1 + [names[n]])]
    ensures AtBlock(names, n + 1, next)
  {
    var a := From(names, n);
    assert a == From(names, n - 1);
    assert Big(r, |r| - 1) == Big(next, |r| - 1) && Small(r, |r| - 1) == Small(next, |r| - 1) by {
      SameFront(r, next, |r| - 1);
    }
    assert names[a..n + 1] == names[a..n] + [names[n]];
  }

  lemma {:induction false} RunGoesOn(names: seq<string>, n: nat)
    requires 0 < n < |names| && Segment(names[n - 1]) == Segment(names[n])
    ensures var r := Runs(names, n);
            r != [] && Runs(names, n + 1) == r[..|r| - 1] + [(Segment(names[n]), r[|r| - 1].1 + [names[n]])]
  {}

  lemma {:induction false} BlockBegins(names: seq<string>, n: nat, r: seq<Section>)
    requires 0 < n < |names| && AtBlock(names, n, r) && Segment(names[n - 1]) != Segment(names[n])
    ensures AtBlock(names, n + 1, r + [(Segment(names[n]), [names[n]])])
  {
    var next := r + [(Segment(names[n]), [names[n]])];
    assert From(names, n) == n && names[n..n + 1] == [names[n]];
    assert Big(r, |r|) == Shared(names, n) && Small(r, |r|) == Alone(names, n) by { BlockFiled(names, n, r); }
    SameFront(r, next, |r|);
  }

  lemma {:induction false} RunBegins(names: seq<string>, n: nat)
    requires 0 < n < |names| && Segment(names[n - 1]) != Segment(names[n])
    ensures Runs(names, n + 1) == Runs(names, n) + [(Segment(names[n]), [names[n]])]
  {}

  lemma {:induction false} BlockFiled(names: seq<string>, n: nat, r: seq<Section>)
    requires 0 < n <= |names| && Ends(names, n - 1) && AtBlock(names, n, r)
    ensures Big(r, |r|) == Shared(names, n) && Small(r, |r|) == Alone(names, n)
  {
    var a := From(names, n - 1);
    InsideBlock(names, n - 1);
    if a == n - 1 { assert names[a..n] == [names[n - 1]]; }
  }

  lemma {:induction false} NextBlock(names: seq<string>, n: nat)
    requires 0 < n < |names| && AtBlock(names, n, Runs(names, n))
    ensures AtBlock(names, n + 1, Runs(names, n + 1))
  {
    if Segment(names[n - 1]) == Segment(names[n]) {
      RunGoesOn(names, n);
      BlockGoesOn(names, n, Runs(names, n), Runs(names, n + 1));
    } else {
      RunBegins(names, n);
      BlockBegins(names, n, Runs(names, n));
    }
  }

  lemma {:induction false} FirstBlock(names: seq<string>)
    requires names != []
    ensures AtBlock(names, 1, Runs(names, 1))
  {
    assert names[0..1] == [names[0]] && Runs(names, 0) == [];
  }

  lemma {:induction false} RunsAreBlocks(names: seq<string>, n: nat)
    requires n < |names|
    ensures AtBlock(names, n + 1, Runs(names, n + 1))
  {
    if n == 0 {
      FirstBlock(names);
    } else {
      RunsAreBlocks(names, n - 1);
      NextBlock(names, n);
    }
  }

  /** The sections are exactly the blocks of two or more names, in order, and
      "other" exactly the names that are a block of their own, in order. */
  lemma {:induction false} SectionsAreBlocks(names: seq<string>)
    ensures var runs := Runs(names, |names|);
            Big(runs, |runs|) == Shared(names, |names|) && Small(runs, |runs|) == Alone(names, |names|)
  {
    if names != [] {
      RunsAreBlocks(names, |names| - 1);
      BlockFiled(names, |names|, Runs(names, |names|));
    }
  }

  // ---- no flag is lost or repeated

  /** How often `f` is among the first `n` names. */
  function Count(xs: seq<string>, f: string, n: nat): (r: nat)
    requires n <= |xs|
  {
    if n == 0 then 0 else Count(xs, f, n - 1) + if xs[n - 1] == f then 1 else 0
  }

  /** How often `f` is filed in the first `n` sections. */
  function Filings(sections: seq<Section>, f: string, n: nat): (r: nat)
    requires n <= |sections|
  {
    if n == 0 then 0 else var p := sections[n - 1].1; Filings(sections, f, n - 1) + Count(p, f, |p|)
  }

  lemma {:induction false} CountAppend(xs: seq<string>, ys: seq<string>, f: string, n: nat)
    requires n <= |xs + ys|
    ensures Count(xs + ys, f, n) == if n <= |xs| then Count(xs, f, n) else Count(xs, f, |xs|) + Count(ys, f, n - |xs|)
  {
    if n > 0 { CountAppend(xs, ys, f, n - 1); }
  }

  lemma {:induction false} FilingsFront(r: seq<Section>, r': seq<Section>, f: string, n: nat)
    requires n <= |r| && n <= |r'| && forall i :: 0 <= i < n ==> r[i] == r'[i]
    ensures Filings(r, f, n) == Filings(r', f, n)
  {
    if n > 0 { FilingsFront(r, r', f, n - 1); }
  }

  lemma {:induction false} CountOne(xs: seq<string>, name: string, f: string)
    ensures Count(xs + [name], f, |xs| + 1) == Count(xs, f, |xs|) + if name == f then 1 else 0
  {
    CountAppend(xs, [name], f, |xs|);
  }

  /** One more flag at the end of the last run, or in a run of its own. */
  lemma {:induction false} FilingsNext(r: seq<Section>, r': seq<Section>, last: seq<string>, name: string, f: string)
    requires |r'| - 1 <= |r| <= |r'| && r' != []
    requires forall i :: 0 <= i < |r'| - 1 ==> r[i] == r'[i]
    requires last == if |r| == |r'| then r[|r| - 1].1 else []
    requires r'[|r'| - 1].1 == last + [name]
    ensures Filings(r', f, |r'|) == Filings(r, f, |r|) + if name == f then 1 else 0
  {
    FilingsFront(r, r', f, |r'| - 1);
    CountOne(last, name, f);
  }

  lemma {:induction false} RunsNext(names: seq<string>, f: string, n: nat)
    requires 0 < n <= |names|
    ensures var r, r' := Runs(names, n - 1), Runs(names, n);
            Filings(r', f, |r'|) == Filings(r, f, |r|) + if names[n - 1] == f then 1 else 0
  {
    var r, r', name := Runs(names, n - 1), Runs(names, n), names[n - 1];
    forall t | 0 <= t < |r'| - 1 ensures r'[t] == r[t] { RunStep(names, n, t); }
    RunStep(names, n, |r'| - 1);
    var last := if |r| == |r'| then r[|r| - 1].1 else [];
    assert [] + [name] == [name];
    FilingsNext(r, r', last, name, f);
  }

  lemma {:induction false} RunsKeepFlags(names: seq<string>, f: string, n: nat)
    requires n <= |names|
    ensures Filings(Runs(names, n), f, |Runs(names, n)|) == Count(names, f, n)
  {
    if n > 0 {
      RunsKeepFlags(names, f, n - 1);
      RunsNext(names, f, n);
    }
  }

  lemma {:induction false} FiledKeepFlags(runs: seq<Section>, f: string, n: nat)
    requires n <= |runs|
    ensures Filings(Big(runs, n), f, |Big(runs, n)|) + Count(Small(runs, n), f, |Small(runs, n)|) == Filings(runs, f, n)
  {
    if n > 0 {
      FiledKeepFlags(runs, f, n - 1);
      if |runs[n - 1].1| >= 2 {
        FilingsFront(Big(runs, n - 1), Big(runs, n), f, |Big(runs, n - 1)|);
      } else {
        CountAppend(Small(runs, n - 1), runs[n - 1].1, f, |Small(runs, n)|);
      }
    }
  }

  /** The sections hold every flag as often as the names do, whatever the names. */
  lemma {:induction false} SectionsPartition(names: seq<string>, f: string)
    ensures var runs := Runs(names, |names|);
            var sections := Big(runs, |runs|) + [("other", Small(runs, |runs|))];
            Filings(sections, f, |sections|) == Count(names, f, |names|)
  {
    var runs := Runs(names, |names|);
    var big := Big(runs, |runs|);
    RunsKeepFlags(names, f, |names|);
    FiledKeepFlags(runs, f, |runs|);
    FilingsFront(big, big + [("other", Small(runs, |runs|))], f, |big|);
  }

  // ---- when sorting keeps the flags of one prefix together

  /** Names with the same segment stand together. */
  predicate Contiguous(names: seq<string>) {
    forall i, j, k :: 0 <= i < j < k < |names| && Segment(names[i]) == Segment(names[k]) ==>
      Segment(names[j]) == Segment(names[i])
  }

  /** A flag that is itself a prefix, a flag `prefix_...`, and a flag that goes on
      after the prefix with a character sorted before '_'. */
  predicate Wedged(names: seq<string>, x: string, y: string, z: string) {
    && x in names && y in names && z in names
    && Segment(x) == x && x <= y && x <= z
    && |x| < |y| && |x| < |z| && y[|x|] < '_' == z[|x|]
  }

  ghost predicate NoWedge(names: seq<string>) {
    !exists x, y, z :: Wedged(names, x, y, z)
  }

  lemma {:induction false} LessFromPrefix(p: string, a: string, b: string)
    requires p <= a && p <= b && |p| < |b| && (a == p || a[|p|] < b[|p|])
    ensures Less(a, b)
    decreases |p|
  {
    if p != "" {
      assert p[1..] <= a[1..] && p[1..] <= b[1..];
      LessFromPrefix(p[1..], a[1..], b[1..]);
    }
  }

  lemma {:induction false} BetweenKeepsPrefix(p: string, a: string, b: string, c: string)
    requires p <= a && p <= c && Less(a, b) && Less(b, c)
    ensures p <= b
    decreases |p|
  {
    if p != "" {
      assert a[0] == c[0] == p[0];
      assert b[0] == p[0];
      BetweenKeepsPrefix(p[1..], a[1..], b[1..], c[1..]);
      assert b == [b[0]] + b[1..] && p == [p[0]] + p[1..];
    }
  }

  /** What `Less` says about two strings with a common prefix. */
  lemma {:induction false} LessAfterPrefix(p: string, a: string, b: string)
    requires p <= a && p <= b && Less(a, b)
    ensures |p| < |b| && (|p| < |a| ==> a[|p|] <= b[|p|])
    decreases |p|
  {
    if p != "" {
      assert p[1..] <= a[1..] && p[1..] <= b[1..];
      LessAfterPrefix(p[1..], a[1..], b[1..]);
    }
  }

  lemma {:induction false} LessIsStrict(a: string, b: string)
    requires Less(a, b)
    ensures !Less(b, a) && a != b
    decreases |a|
  {
    if a != "" && a[0] == b[0] {
      LessIsStrict(a[1..], b[1..]);
    }
  }

  lemma {:induction false} SegmentOfPrefix(x: string, y: string)
    requires Segment(x) == x && x <= y
    ensures Segment(y) == x <==> |y| == |x| || y[|x|] == '_'
  {
    var s := Segment(y);
    SegmentIs(x);
    SegmentIs(y);
    assert |s| >= |x| by {
      assert forall i :: 0 <= i < |x| ==> x[i] in x && y[i] == x[i];
    }
    assert s == y[..|s|];
    assert |x| < |s| ==> s[|x|] in s;
  }

  lemma {:induction false} WedgeBreaks(names: seq<string>, x: string, y: string, z: string)
    requires Sorted(names) && Wedged(names, x, y, z)
    ensures !Contiguous(names)
  {
    var i :| 0 <= i < |names| && names[i] == x;
    var j :| 0 <= j < |names| && names[j] == y;
    var k :| 0 <= k < |names| && names[k] == z;
    LessFromPrefix(x, x, y);
    LessFromPrefix(x, y, z);
    InOrder(names, i, j);
    InOrder(names, j, k);
    SegmentOfPrefix(x, y);
    SegmentOfPrefix(x, z);
    assert Segment(names[i]) == Segment(names[k]) && Segment(names[j]) != Segment(names[i]);
  }

  /** Sorting keeps equal segments together exactly when no flag is wedged in. */
  lemma {:induction false} ContiguousIff(names: seq<string>)
    requires Sorted(names)
    ensures Contiguous(names) <==> NoWedge(names)
  {
    if Contiguous(names) {
      forall x, y, z ensures !Wedged(names, x, y, z) {
        if Wedged(names, x, y, z) { WedgeBreaks(names, x, y, z); }
      }
    } else {
      var i, j, k :| 0 <= i < j < k < |names| && Segment(names[i]) == Segment(names[k]) &&
        Segment(names[j]) != Segment(names[i]);
      FindWedge(names, i, j, k);
    }
  }

  lemma {:induction false} InOrder(names: seq<string>, i: nat, j: nat)
    requires Sorted(names) && i < |names| && j < |names| && Less(names[i], names[j])
    ensures i < j
  {
    LessIsStrict(names[i], names[j]);
  }

  lemma {:induction false} FindWedge(names: seq<string>, i: nat, j: nat, k: nat)
    requires Sorted(names) && i < j < k < |names|
    requires Segment(names[i]) == Segment(names[k]) != Segment(names[j])
    ensures Wedged(names, names[i], names[j], names[k])
  {
    var s, a, b, c := Segment(names[i]), names[i], names[j], names[k];
    SegmentIs(a);
    SegmentIs(c);
    BetweenKeepsPrefix(s, a, b, c);
    SegmentSelf(s);
    SegmentOfPrefix(s, b);
    SegmentOfPrefix(s, a);
    SegmentOfPrefix(s, c);
    LessAfterPrefix(s, b, c);
    LessAfterPrefix(s, a, b);
    assert |a| == |s|;
    assert a == s;
  }

  lemma {:induction false} SegmentSelf(s: string)
    requires '_' !in s
    ensures Segment(s) == s
  {
    UnderscoreFirst(s, 0);
    assert forall i :: 0 <= i < |s| ==> s[i] in s;
    assert s[..|s|] == s;
  }

  // ---- what the sections then hold

  /** The flags of one segment among the first `n`, in order. */
  function FlagsOf(names: seq<string>, segment: string, n: nat): (r: seq<string>)
    requires n <= |names|
  {
    if n == 0 then []
    else if Segment(names[n - 1]) == segment then FlagsOf(names, segment, n - 1) + [names[n - 1]]
    else FlagsOf(names, segment, n - 1)
  }

  /** Sections as the documentation wants them: a section holds every flag of its
      prefix, and a flag in "other" is alone with its prefix. */
  ghost predicate Grouped(names: seq<string>, sections: seq<Section>, other: seq<string>) {
    && (forall p <- sections :: Whole(names, |names|, p))
    && (forall f <- other :: FlagsOf(names, Segment(f), |names|) == [f])
  }

  ghost predicate Whole(names: seq<string>, n: nat, p: Section)
    requires n <= |names|
  {
    p.1 == FlagsOf(names, p.0, n)
  }

  lemma {:induction false} NoFlagsYet(names: seq<string>, segment: string, n: nat)
    requires n <= |names| && forall i :: 0 <= i < n ==> Segment(names[i]) != segment
    ensures FlagsOf(names, segment, n) == []
  {
    if n > 0 { NoFlagsYet(names, segment, n - 1); }
  }

  lemma {:induction false} RunHasMember(names: seq<string>, n: nat, t: nat) returns (i: nat)
    requires n <= |names| && t < |Runs(names, n)|
    ensures i < n && Segment(names[i]) == Runs(names, n)[t].0
  {
    RunStep(names, n, t);
    if t < |Runs(names, n - 1)| { i := RunHasMember(names, n - 1, t); } else { i := n - 1; }
  }

  /** A segment that differs from the one before it has not been seen at all. */
  lemma {:induction false} NewSegment(names: seq<string>, n: nat)
    requires 0 < n < |names| && Contiguous(names) && Segment(names[n - 1]) != Segment(names[n])
    ensures forall i :: 0 <= i < n ==> Segment(names[i]) != Segment(names[n])
  {
    var last, next := Segment(names[n - 1]), Segment(names[n]);
    forall i | 0 <= i < n ensures Segment(names[i]) != next {
      assert i < n - 1 && Segment(names[i]) == next ==> last == next;
    }
  }

  lemma {:induction false} DistinctRuns(names: seq<string>, n: nat, i: nat, j: nat)
    requires n <= |names| && Contiguous(names) && i < j < |Runs(names, n)|
    ensures Runs(names, n)[i].0 != Runs(names, n)[j].0
  {
    RunStep(names, n, i);
    RunStep(names, n, j);
    if j < |Runs(names, n - 1)| {
      DistinctRuns(names, n - 1, i, j);
    } else {
      var m := RunHasMember(names, n - 1, i);
      NewSegment(names, n - 1);
    }
  }

  lemma {:induction false} WholeRuns(names: seq<string>, n: nat, t: nat)
    requires n <= |names| && Contiguous(names) && t < |Runs(names, n)|
    ensures Whole(names, n, Runs(names, n)[t])
  {
    RunStep(names, n, t);
    var r := Runs(names, n - 1);
    if t < |r| {
      WholeRuns(names, n - 1, t);
      if t < |Runs(names, n)| - 1 { DistinctRuns(names, n, t, |Runs(names, n)| - 1); }
    } else {
      if n > 1 { NewSegment(names, n - 1); }
      NoFlagsYet(names, Segment(names[n - 1]), n - 1);
    }
  }

  // ---- and what they hold otherwise

  /** The run that flag `i` goes into. */
  function RunOf(names: seq<string>, i: nat): (t: int)
    requires i < |names|
  {
    |Runs(names, i + 1)| - 1
  }

  lemma {:induction false} RunOfKept(names: seq<string>, i: nat, n: nat)
    requires i < n <= |names|
    ensures 0 <= RunOf(names, i) < |Runs(names, n)| && Runs(names, n)[RunOf(names, i)].0 == Segment(names[i])
  {
    if i < n - 1 {
      RunOfKept(names, i, n - 1);
      RunsGrow(names, n);
      RunStep(names, n, RunOf(names, i));
    }
  }

  lemma {:induction false} RunsGrow(names: seq<string>, n: nat)
    requires 0 < n <= |names|
    ensures |Runs(names, n - 1)| <= |Runs(names, n)|
  {}

  lemma {:induction false} RunOfMonotone(names: seq<string>, i: nat, j: nat)
    requires i <= j < |names|
    ensures RunOf(names, i) <= RunOf(names, j)
    decreases j
  {
    if i < j { RunOfMonotone(names, i, j - 1); }
  }

  lemma {:induction false} RunWithin(names: seq<string>, n: nat, t: nat)
    requires n <= |names| && t < |Runs(names, n)|
    ensures var p := Runs(names, n)[t]; 0 < |p.1| <= |FlagsOf(names, p.0, n)|
  {
    RunStep(names, n, t);
    if t < |Runs(names, n - 1)| { RunWithin(names, n - 1, t); }
  }

  /** Of two runs with the same segment the first misses a flag of the second. */
  lemma {:induction false} SplitRun(names: seq<string>, n: nat, a: nat, c: nat)
    requires n <= |names| && a < c < |Runs(names, n)| && Runs(names, n)[a].0 == Runs(names, n)[c].0
    ensures var p := Runs(names, n)[a]; |p.1| < |FlagsOf(names, p.0, n)|
  {
    var r := Runs(names, n - 1);
    RunStep(names, n, a);
    RunStep(names, n, c);
    if c < |r| { SplitRun(names, n - 1, a, c); } else { RunWithin(names, n - 1, a); }
  }

  lemma {:induction false} RunsApart(names: seq<string>, i: nat, j: nat)
    requires i < j < |names| && Segment(names[i]) != Segment(names[j])
    ensures 0 <= RunOf(names, i) < RunOf(names, j)
  {
    RunOfKept(names, i, |names|);
    RunOfKept(names, j, |names|);
    RunOfMonotone(names, i, j);
  }

  lemma {:induction false} BrokenRun(names: seq<string>, i: nat, j: nat, k: nat) returns (t: nat)
    requires i < j < k < |names| && Segment(names[i]) == Segment(names[k]) != Segment(names[j])
    ensures var runs := Runs(names, |names|);
            t < |runs| && 0 < |runs[t].1| < |FlagsOf(names, runs[t].0, |names|)|
  {
    t := RunOf(names, i);
    assert t < RunOf(names, k) by {
      RunsApart(names, i, j);
      RunsApart(names, j, k);
    }
    RunOfKept(names, i, |names|);
    RunOfKept(names, k, |names|);
    SplitRun(names, |names|, t, RunOf(names, k));
    RunWithin(names, |names|, t);
  }

  // ---- the sections themselves

  lemma {:induction false} Filed(runs: seq<Section>, t: nat, n: nat)
    requires t < n <= |runs|
    ensures |runs[t].1| >= 2 ==> runs[t] in Big(runs, n)
    ensures |runs[t].1| < 2 ==> forall f <- runs[t].1 :: f in Small(runs, n)
  {
    if t < n - 1 { Filed(runs, t, n - 1); }
  }

  lemma {:induction false} BigFrom(runs: seq<Section>, n: nat)
    requires n <= |runs|
    ensures forall p <- Big(runs, n) :: p in runs
  {
    if n > 0 { BigFrom(runs, n - 1); }
  }

  lemma {:induction false} SmallFrom(runs: seq<Section>, n: nat, f: string) returns (p: Section)
    requires n <= |runs| && f in Small(runs, n)
    ensures p in runs && |p.1| == 1 && f == p.1[0]
  {
    if f in Small(runs, n - 1) { p := SmallFrom(runs, n - 1, f); } else { p := runs[n - 1]; }
  }

  lemma {:induction false} FlagsHaveSegment(names: seq<string>, segment: string, n: nat)
    requires n <= |names|
    ensures forall f <- FlagsOf(names, segment, n) :: Segment(f) == segment
  {
    if n > 0 { FlagsHaveSegment(names, segment, n - 1); }
  }

  lemma {:induction false} AloneIsWhole(names: seq<string>, p: Section, f: string)
    requires Whole(names, |names|, p) && |p.1| == 1 && f == p.1[0]
    ensures FlagsOf(names, Segment(f), |names|) == [f]
  {
    var fs := FlagsOf(names, p.0, |names|);
    assert Segment(f) == p.0 by { FlagsHaveSegment(names, p.0, |names|); assert fs[0] in fs; }
    assert fs == [fs[0]];
  }

  lemma {:induction false} WholeIsGrouped(names: seq<string>, runs: seq<Section>)
    requires forall p <- runs :: Whole(names, |names|, p)
    ensures Grouped(names, Big(runs, |runs|), Small(runs, |runs|))
  {
    BigFrom(runs, |runs|);
    assert forall p <- Big(runs, |runs|) :: Whole(names, |names|, p);
    forall f <- Small(runs, |runs|) ensures FlagsOf(names, Segment(f), |names|) == [f] {
      var p := SmallFrom(runs, |runs|, f);
      AloneIsWhole(names, p, f);
    }
  }

  lemma {:induction false} BrokenIsNotGrouped(names: seq<string>, t: nat)
    requires var runs := Runs(names, |names|);
             t < |runs| && 0 < |runs[t].1| < |FlagsOf(names, runs[t].0, |names|)|
    ensures var runs := Runs(names, |names|); !Grouped(names, Big(runs, |runs|), Small(runs, |runs|))
  {
    var runs := Runs(names, |names|);
    var p := runs[t];
    Filed(runs, t, |runs|);
    if |p.1| < 2 {
      RunFlags(names, |names|, t);
      assert p.1[0] in Small(runs, |runs|) && Segment(p.1[0]) == p.0;
    }
  }

  lemma {:induction false} RunFlags(names: seq<string>, n: nat, t: nat)
    requires n <= |names| && t < |Runs(names, n)|
    ensures var p := Runs(names, n)[t]; forall f <- p.1 :: Segment(f) == p.0
  {
    if t < |Runs(names, n - 1)| { RunFlags(names, n - 1, t); }
  }

  /** Sections are grouped by prefix exactly when sorting keeps prefixes together,
      that is exactly when no flag is wedged in. */
  lemma {:induction false} GroupedIff(names: seq<string>)
    requires Sorted(names)
    ensures var runs := Runs(names, |names|);
            Grouped(names, Big(runs, |runs|), Small(runs, |runs|)) <==> NoWedge(names)
  {
    ContiguousIff(names);
    var runs := Runs(names, |names|);
    if Contiguous(names) {
      forall p <- runs ensures Whole(names, |names|, p) {
        var t :| 0 <= t < |runs| && runs[t] == p;
        WholeRuns(names, |names|, t);
      }
      WholeIsGrouped(names, runs);
    } else {
      var i, j, k :| 0 <= i < j < k < |names| && Segment(names[i]) == Segment(names[k]) &&
        Segment(names[j]) != Segment(names[i]);
      var t := BrokenRun(names, i, j, k);
      BrokenIsNotGrouped(names, t);
    }
  }

  // ---- what that gives flag by flag

  lemma {:induction false} RunOfFlag(names: seq<string>, i: nat) returns (t: nat)
    requires Sorted(names) && NoWedge(names) && i < |names|
    ensures var runs := Runs(names, |names|);
            t < |runs| && runs[t] == (Segment(names[i]), FlagsOf(names, Segment(names[i]), |names|))
  {
    ContiguousIff(names);
    RunOfKept(names, i, |names|);
    t := RunOf(names, i);
    WholeRuns(names, |names|, t);
  }

  /** Every prefix shared by two or more flags is a section of exactly those flags. */
  lemma {:induction false} SharedIsSection(names: seq<string>, i: nat)
    requires Sorted(names) && NoWedge(names) && i < |names|
    requires |FlagsOf(names, Segment(names[i]), |names|)| >= 2
    ensures var runs := Runs(names, |names|);
            (Segment(names[i]), FlagsOf(names, Segment(names[i]), |names|)) in Big(runs, |runs|)
  {
    var t := RunOfFlag(names, i);
    var runs := Runs(names, |names|);
    Filed(runs, t, |runs|);
  }

  predicate DistinctNames(sections: seq<Section>) {
    forall i, j :: 0 <= i < j < |sections| ==> sections[i].0 != sections[j].0
  }

  lemma {:induction false} BigAreRuns(runs: seq<Section>, n: nat)
    requires n <= |runs|
    ensures forall p <- Big(runs, n) :: |p.1| >= 2 && exists t :: 0 <= t < n && runs[t] == p
  {
    if n > 0 {
      BigAreRuns(runs, n - 1);
      assert runs[n - 1] == runs[n - 1];
    }
  }

  lemma {:induction false} BigDistinct(runs: seq<Section>, n: nat)
    requires n <= |runs| && DistinctNames(runs)
    ensures DistinctNames(Big(runs, n))
  {
    if n > 0 {
      BigDistinct(runs, n - 1);
      BigAreRuns(runs, n - 1);
    }
  }

  lemma {:induction false} FlagsFromNames(names: seq<string>, segment: string, n: nat) returns (i: nat)
    requires n <= |names| && FlagsOf(names, segment, n) != []
    ensures i < n && Segment(names[i]) == segment
  {
    if Segment(names[n - 1]) == segment { i := n - 1; } else { i := FlagsFromNames(names, segment, n - 1); }
  }

  /** No two sections have the same name exactly when fewer than two flags start
      with "other". */
  lemma {:induction false} NamesDistinctIff(names: seq<string>)
    requires Sorted(names) && NoWedge(names)
    ensures var runs := Runs(names, |names|);
            DistinctNames(Big(runs, |runs|) + [("other", Small(runs, |runs|))]) <==>
              |FlagsOf(names, "other", |names|)| < 2
  {
    var runs := Runs(names, |names|);
    var big := Big(runs, |runs|);
    var all := big + [("other", Small(runs, |runs|))];
    ContiguousIff(names);
    forall i, j | 0 <= i < j < |runs| ensures runs[i].0 != runs[j].0 { DistinctRuns(names, |names|, i, j); }
    BigDistinct(runs, |runs|);
    if |FlagsOf(names, "other", |names|)| >= 2 {
      var i := FlagsFromNames(names, "other", |names|);
      SharedIsSection(names, i);
      var t :| 0 <= t < |big| && big[t] == ("other", FlagsOf(names, "other", |names|));
      assert all[t].0 == all[|big|].0;
    } else {
      BigIsNotOther(names);
      assert forall t :: 0 <= t < |big| ==> all[t] == big[t] && all[t].0 != "other";
    }
  }

  lemma {:induction false} BigIsNotOther(names: seq<string>)
    requires Sorted(names) && NoWedge(names) && |FlagsOf(names, "other", |names|)| < 2
    ensures var runs := Runs(names, |names|); forall p <- Big(runs, |runs|) :: p.0 != "other"
  {
    var runs := Runs(names, |names|);
    ContiguousIff(names);
    BigAreRuns(runs, |runs|);
    forall p <- Big(runs, |runs|) ensures p.0 != "other" {
      var t :| 0 <= t < |runs| && runs[t] == p;
      WholeRuns(names, |names|, t);
    }
  }

  /** Names of nothing but '_' and characters after it, as lowercase letters are,
      are never wedged. */
  lemma {:induction false} LowercaseGrouped(names: seq<string>)
    requires Sorted(names) && forall i :: 0 <= i < |names| ==> forall k :: 0 <= k < |names[i]| ==> '_' <= names[i][k]
    ensures var runs := Runs(names, |names|); NoWedge(names) && Grouped(names, Big(runs, |runs|), Small(runs, |runs|))
  {
    GroupedIff(names);
  }

  /** Three flags whose sections come out wrong: `a`, `aB` and `a_c`. */
  lemma {:induction false} WedgedExample()
    ensures Sorted(["a", "aB", "a_c"]) && Wedged(["a", "aB", "a_c"], "a", "aB", "a_c")
  {
    var names := ["a", "aB", "a_c"];
    LessFromPrefix("a", "a", "aB");
    LessFromPrefix("a", "a", "a_c");
    LessFromPrefix("a", "aB", "a_c");
    SegmentSelf("a");
  }
}
