/** The mock vertex keeps its labels as one colon-joined string and edits that
    string in place.  On lists of labels the edits mean appending one label and
    removing one. */
module MockLabels {
  import opened Colons

  // ---- Python's string operations

  /** `s.split(":")`: always at least one part. */
  function Split(s: string): (r: seq<string>)
    ensures r != []
    decreases |s|
  {
    var i := ColonAt(s);
    if i == |s| then [s] else [s[..i]] + Split(s[i + 1..])
  }

  /** `s.replace(pat, rep)`: from the left, without overlaps. */
  function Replace(s: string, pat: string, rep: string): (r: string)
    requires pat != ""
    decreases |s|
  {
    if |s| < |pat| then s
    else if pat <= s then rep + Replace(s[|pat|..], pat, rep)
    else [s[0]] + Replace(s[1..], pat, rep)
  }

  predicate EndsWith(s: string, t: string) {
    |t| <= |s| && s[|s| - |t|..] == t
  }

  /** The string after `remove_label`. */
  function Removed(s: string, lab: string): (r: string) {
    if lab + ":" <= s then Replace("\n" + s, "\n" + lab + ":", "")
    else if EndsWith(s, ":" + lab) then Replace(s + "\n", ":" + lab + "\n", "")
    else Replace(s, ":" + lab + ":", ":")
  }

  /** The string after `add_label`. */
  function Added(s: string, lab: string): (r: string) {
    s + ":" + lab
  }

  // ---- strings and label lists

  /** Every label preceded by a colon. */
  function Tail(ls: seq<string>): (s: string) {
    if ls == [] then "" else ":" + (ls[0] + Tail(ls[1..]))
  }

  function Joined(ls: seq<string>): (s: string)
    requires ls != []
  {
    ls[0] + Tail(ls[1..])
  }

  predicate Plain(lab: string) {
    ':' !in lab && '\n' !in lab
  }

  predicate AllPlain(ls: seq<string>) {
    forall i :: 0 <= i < |ls| ==> Plain(ls[i])
  }

  predicate Distinct(ls: seq<string>) {
    forall i, j :: 0 <= i < j < |ls| ==> ls[i] != ls[j]
  }

  /** The list without one label, order kept. */
  function Without(ls: seq<string>, lab: string): (r: seq<string>) {
    if ls == [] then [] else (if ls[0] == lab then [] else [ls[0]]) + Without(ls[1..], lab)
  }

  lemma {:induction false} SplitWhole(x: string)
    requires ':' !in x
    ensures Split(x) == [x]
  {
    assert x[..|x|] == x;
    FirstColon(x, |x|);
  }

  lemma {:induction false} SplitStep(x: string, y: string)
    requires ':' !in x
    ensures Split(x + (":" + y)) == [x] + Split(y)
  {
    var s := x + (":" + y);
    assert s[..|x|] == x && s[|x| + 1..] == y;
    FirstColon(s, |x|);
  }

  lemma {:induction false} TailIsJoined(ls: seq<string>)
    requires ls != []
    ensures Tail(ls) == ":" + Joined(ls) && Tail(ls)[1..] == Joined(ls)
  {}

  predicate NoColons(ls: seq<string>) {
    forall i :: 0 <= i < |ls| ==> ':' !in ls[i]
  }

  /** Splitting undoes joining ... */
  lemma {:induction false} SplitJoined(ls: seq<string>)
    requires ls != [] && NoColons(ls)
    ensures Split(Joined(ls)) == ls
    decreases |ls|
  {
    var x, rest := ls[0], ls[1..];
    if rest == [] {
      assert Joined(ls) == x;
      SplitWhole(x);
    } else {
      TailIsJoined(rest);
      SplitStep(x, Joined(rest));
      SplitJoined(rest);
    }
  }

  lemma {:induction false} JoinedOnto(x: string, ls: seq<string>)
    requires ls != []
    ensures Joined([x] + ls) == x + (":" + Joined(ls))
  {
    assert ([x] + ls)[1..] == ls;
    TailIsJoined(ls);
  }

  lemma {:induction false} JoinedOne(x: string)
    ensures Joined([x]) == x
  {
    assert [x][1..] == [];
    assert x + "" == x;
  }

  lemma {:induction false} NoColonsOnto(x: string, ls: seq<string>)
    requires ':' !in x && NoColons(ls)
    ensures NoColons([x] + ls)
  {}

  /** ... and joining undoes splitting. */
  lemma {:induction false} JoinedSplit(s: string)
    ensures NoColons(Split(s)) && Joined(Split(s)) == s
    decreases |s|
  {
    var i := ColonAt(s);
    var x := s[..i];
    if i == |s| {
      assert x == s;
      JoinedOne(s);
    } else {
      var y := s[i + 1..];
      JoinedSplit(y);
      JoinedOnto(x, Split(y));
      NoColonsOnto(x, Split(y));
      assert s == x + (":" + y);
    }
  }

  lemma {:induction false} JoinedAppend(a: seq<string>, b: seq<string>)
    requires a != [] && b != []
    ensures Joined(a + b) == Joined(a) + ":" + Joined(b)
  {
    assert (a + b)[1..] == a[1..] + b;
    TailOfAppend(a[1..], b);
    TailIsJoined(b);
  }

  lemma {:induction false} SplitAdded(s: string, lab: string)
    ensures Split(Added(s, lab)) == Split(s) + Split(lab)
  {
    var ls, ms := Split(s), Split(lab);
    JoinedSplit(s);
    JoinedSplit(lab);
    JoinedAppend(ls, ms);
    SplitJoined(ls + ms);
  }

  /** Adding a label appends its parts to the split; exactly one entry if and only
      if there is no colon in it. */
  lemma {:induction false} AddedAppends(s: string, lab: string)
    ensures Split(Added(s, lab)) == Split(s) + Split(lab)
    ensures Split(Added(s, lab)) == Split(s) + [lab] <==> ':' !in lab
  {
    SplitAdded(s, lab);
    SplitOneIff(lab);
    var ls := Split(s);
    assert (ls + Split(lab))[|ls|..] == Split(lab) && (ls + [lab])[|ls|..] == [lab];
  }

  lemma {:induction false} SplitOneIff(lab: string)
    ensures Split(lab) == [lab] <==> ':' !in lab
  {
    assert lab[..|lab|] == lab;
    if ':' !in lab { FirstColon(lab, |lab|); } else { assert |Split(lab)| >= 2; }
  }

  // ---- what the three replacements do

  predicate OccursAt(s: string, pat: string, i: nat) {
    i <= |s| && pat <= s[i..]
  }

  lemma {:induction false} ReplaceCopies(s: string, pat: string, rep: string)
    requires pat != "" && s != "" && !(pat <= s)
    ensures Replace(s, pat, rep) == [s[0]] + Replace(s[1..], pat, rep)
  {
    if |s| < |pat| { assert [s[0]] + s[1..] == s; }
  }

  lemma {:induction false} ReplaceUpTo(s: string, pat: string, rep: string, i: nat)
    requires pat != "" && i <= |s| && forall j :: 0 <= j < i ==> !OccursAt(s, pat, j)
    ensures Replace(s, pat, rep) == s[..i] + Replace(s[i..], pat, rep)
  {
    if i == 0 {
      assert s[0..] == s && s[..0] + Replace(s, pat, rep) == Replace(s, pat, rep);
    } else {
      ReplaceUpTo(s, pat, rep, i - 1);
      assert !OccursAt(s, pat, i - 1);
      assert Replace(s[i - 1..], pat, rep) == [s[i - 1]] + Replace(s[i..], pat, rep) by {
        ReplaceCopies(s[i - 1..], pat, rep);
        assert s[i - 1..][1..] == s[i..];
      }
      Glue(s, i, Replace(s[i..], pat, rep));
    }
  }

  lemma {:induction false} Glue(s: string, i: nat, r: string)
    requires 0 < i <= |s|
    ensures s[..i - 1] + ([s[i - 1]] + r) == s[..i] + r
  {}

  /** Without an occurrence nothing changes; the first one is replaced and the
      search goes on behind it. */
  lemma {:induction false} ReplaceMeans(s: string, pat: string, rep: string, i: nat)
    requires pat != "" && i <= |s| && forall j :: 0 <= j < i ==> !OccursAt(s, pat, j)
    ensures OccursAt(s, pat, i) ==> Replace(s, pat, rep) == s[..i] + (rep + Replace(s[i + |pat|..], pat, rep))
    ensures i == |s| ==> Replace(s, pat, rep) == s
  {
    ReplaceUpTo(s, pat, rep, i);
    if OccursAt(s, pat, i) { assert s[i..][|pat|..] == s[i + |pat|..]; }
    if i == |s| { assert s[..i] + "" == s && s[i..] == ""; }
  }

  lemma {:induction false} ReplaceNothing(s: string, pat: string, rep: string)
    requires pat != "" && pat[0] !in s
    ensures Replace(s, pat, rep) == s
    decreases |s|
  {
    if |s| >= |pat| {
      assert s[0] in s;
      ReplaceNothing(s[1..], pat, rep);
      assert [s[0]] + s[1..] == s;
    }
  }

  lemma {:induction false} ReplaceAtEnd(s: string, pat: string)
    requires pat != "" && pat[|pat| - 1] !in s && pat[|pat| - 1] !in pat[..|pat| - 1]
    ensures Replace(s + pat, pat, "") == s
    decreases |s|
  {
    var whole, n := s + pat, |pat|;
    if s == "" {
      assert whole == pat && whole[n..] == "";
      assert "" + Replace("", pat, "") == "";
    } else {
      assert whole[n - 1] != pat[n - 1] by {
        if n - 1 < |s| { assert whole[n - 1] in s; } else { assert whole[n - 1] == pat[..n - 1][n - 1 - |s|]; }
      }
      ReplaceAtEnd(s[1..], pat);
      assert whole[1..] == s[1..] + pat;
      assert [s[0]] + s[1..] == s;
    }
  }

  lemma {:induction false} ReplaceSkips(x: string, t: string, pat: string, rep: string)
    requires pat != "" && pat[0] !in x
    ensures Replace(x + t, pat, rep) == x + Replace(t, pat, rep)
    decreases |x|
  {
    if x == "" {
      assert x + t == t;
    } else {
      var whole := x + t;
      assert whole[0] in x;
      ReplaceSkips(x[1..], t, pat, rep);
      assert whole[1..] == x[1..] + t;
      if |whole| < |pat| {
        assert Replace(t, pat, rep) == t;
      } else {
        assert [x[0]] + (x[1..] + Replace(t, pat, rep)) == x + Replace(t, pat, rep);
      }
    }
  }

  /** A label followed by a colon is at the front of a string only if it is the
      whole first label. */
  lemma {:induction false} FrontIsLabel(x: string, rest: seq<string>, lab: string)
    requires ':' !in x && ':' !in lab
    ensures lab + ":" <= x + Tail(rest) <==> x == lab && rest != []
  {
    var whole, pat := x + Tail(rest), lab + ":";
    assert forall k :: 0 <= k < |x| ==> whole[k] == x[k] && x[k] in x;
    assert forall k :: 0 <= k < |lab| ==> pat[k] == lab[k] && lab[k] in lab;
    assert |x| < |whole| ==> whole[|x|] == ':';
    if pat <= whole {
      assert whole[|lab|] == pat[|lab|] == ':';
      assert |x| == |lab|;
      assert x == whole[..|x|] == pat[..|x|] == lab;
    }
    if x == lab && rest != [] {
      assert whole == pat + (rest[0] + Tail(rest[1..]));
    }
  }

  lemma {:induction false} ReplaceStep(y: string, lab: string)
    requires !(lab + ":" <= y)
    ensures Replace(":" + y, ":" + lab + ":", ":") == ":" + Replace(y, ":" + lab + ":", ":")
  {
    var s, pat := ":" + y, ":" + lab + ":";
    assert s[1..] == y;
    PatternAtColon(s, lab);
    ReplaceCopies(s, pat, ":");
  }

  /** Nothing happens at a label that is not the one looked for. */
  lemma {:induction false} ReplacePast(x: string, rest: seq<string>, lab: string)
    requires Plain(x) && Plain(lab) && x != lab
    ensures Replace(Tail([x] + rest), ":" + lab + ":", ":") == ":" + (x + Replace(Tail(rest), ":" + lab + ":", ":"))
  {
    var pat, t := ":" + lab + ":", Tail(rest);
    assert ([x] + rest)[1..] == rest;
    assert Tail([x] + rest) == ":" + (x + t);
    FrontIsLabel(x, rest, lab);
    ReplaceStep(x + t, lab);
    ReplaceSkips(x, t, pat, ":");
  }

  /** The list after a search for the label between two others: the colon behind
      it belongs to the match, so the label that follows is passed over. */
  function Thinned(ls: seq<string>, lab: string): (r: seq<string>)
    decreases |ls|
  {
    if ls == [] then []
    else if ls[0] == lab && |ls| > 1 then [ls[1]] + Thinned(ls[2..], lab)
    else [ls[0]] + Thinned(ls[1..], lab)
  }

  /** The pattern's closing colon opens the next label, so it is put back. */
  lemma {:induction false} ReplaceFound(next: string, rest: seq<string>, lab: string)
    requires Plain(next) && Plain(lab)
    ensures Replace(Tail([lab, next] + rest), ":" + lab + ":", ":") ==
            ":" + (next + Replace(Tail(rest), ":" + lab + ":", ":"))
  {
    var pat, after := ":" + lab + ":", next + Tail(rest);
    var whole := Tail([lab, next] + rest);
    assert ([lab, next] + rest)[1..] == [next] + rest && ([next] + rest)[1..] == rest;
    assert whole == pat + after && whole[|pat|..] == after;
    ReplaceSkips(next, Tail(rest), pat, ":");
  }

  lemma {:induction false} ReplaceThins(ls: seq<string>, lab: string)
    requires AllPlain(ls) && Plain(lab)
    ensures Replace(Tail(ls), ":" + lab + ":", ":") == Tail(Thinned(ls, lab))
    decreases |ls|
  {
    if ls != [] {
      var x, rest := ls[0], ls[1..];
      if x == lab && |ls| > 1 {
        ReplaceThins(ls[2..], lab);
        assert ls == [lab, ls[1]] + ls[2..];
        ReplaceFound(ls[1], ls[2..], lab);
        TailOnto(ls[1], Thinned(ls[2..], lab));
      } else {
        ReplaceThins(rest, lab);
        TailOnto(x, Thinned(rest, lab));
        assert ls == [x] + rest;
        if x == lab { assert Tail(ls) == ":" + (lab + ""); } else { ReplacePast(x, rest, lab); }
      }
    }
  }

  lemma {:induction false} TailOnto(x: string, ls: seq<string>)
    ensures Tail([x] + ls) == ":" + (x + Tail(ls))
  {
    assert ([x] + ls)[1..] == ls;
  }

  lemma {:induction false} PatternAtColon(s: string, lab: string)
    requires s != "" && s[0] == ':'
    ensures ":" + lab + ":" <= s <==> lab + ":" <= s[1..]
  {
    assert ":" + lab + ":" == ":" + (lab + ":");
    if lab + ":" <= s[1..] { assert s == ":" + s[1..]; }
  }

  lemma {:induction false} WithoutAbsent(ls: seq<string>, lab: string)
    requires lab !in ls
    ensures Without(ls, lab) == ls
    decreases |ls|
  {
    if ls != [] {
      WithoutAbsent(ls[1..], lab);
      assert [ls[0]] + ls[1..] == ls;
    }
  }

  // ---- `remove_label` on label lists

  lemma {:induction false} TailOfAppend(a: seq<string>, b: seq<string>)
    ensures Tail(a + b) == Tail(a) + Tail(b)
    decreases |a|
  {
    if a == [] {
      assert a + b == b;
    } else {
      TailOfAppend(a[1..], b);
      assert (a + b)[1..] == a[1..] + b;
      assert ":" + (a[0] + (Tail(a[1..]) + Tail(b))) == (":" + (a[0] + Tail(a[1..]))) + Tail(b);
    }
  }

  lemma {:induction false} NoNewline(ls: seq<string>)
    requires AllPlain(ls)
    ensures '\n' !in Tail(ls)
    decreases |ls|
  {
    if ls != [] { NoNewline(ls[1..]); }
  }

  lemma {:induction false} WithoutLast(ls: seq<string>, lab: string)
    requires ls != [] && ls[|ls| - 1] == lab && lab !in ls[..|ls| - 1]
    ensures Without(ls, lab) == ls[..|ls| - 1]
    decreases |ls|
  {
    if |ls| > 1 {
      assert ls[1..][..|ls| - 2] == ls[..|ls| - 1][1..];
      assert ls[0] in ls[..|ls| - 1];
      WithoutLast(ls[1..], lab);
      assert [ls[0]] + ls[1..][..|ls| - 2] == ls[..|ls| - 1];
    }
  }

  /** The string ends with a colon and the label exactly if the label is the last
      of at least two. */
  lemma {:induction false} EndIsLabel(ls: seq<string>, lab: string)
    requires ls != [] && AllPlain(ls) && Plain(lab)
    ensures EndsWith(Joined(ls), ":" + lab) <==> |ls| > 1 && ls[|ls| - 1] == lab
  {
    var n, s, t := |ls| - 1, Joined(ls), ":" + lab;
    if n == 0 {
      assert s == ls[0];
      assert forall k :: 0 <= k < |s| ==> s[k] in s;
      assert |t| <= |s| ==> s[|s| - |t|..][0] == s[|s| - |t|];
    } else {
      var last := ls[n];
      TailOfAppend(ls[1..n], [last]);
      assert ls[1..] == ls[1..n] + [last];
      assert Tail([last]) == ":" + last;
      var front := ls[0] + Tail(ls[1..n]);
      assert s == front + (":" + last);
      if EndsWith(s, t) { SameEnd(front, last, lab); }
    }
  }

  lemma {:induction false} NoColonAfter(s: string, i: nat, k: nat)
    requires i < |s| && ':' !in s[i + 1..] && k < |s|
    ensures k > i ==> s[k] != ':'
  {
    if k > i { assert s[k] == s[i + 1..][k - i - 1]; }
  }

  lemma {:induction false} SameEnd(front: string, last: string, lab: string)
    requires ':' !in last && ':' !in lab && EndsWith(front + (":" + last), ":" + lab)
    ensures last == lab
  {
    var s := front + (":" + last);
    var i, j := |front|, |s| - |lab| - 1;
    assert s[i] == ':' && s[i + 1..] == last;
    assert s == s[..j] + (":" + lab);
    assert s[j] == ':' && s[j + 1..] == lab;
    NoColonAfter(s, i, j);
    NoColonAfter(s, j, i);
  }

  /** On every string and label without a newline, colons or not: a label and a
      colon at the front go; else a colon and the label at the end; else the label
      goes from between two colons, by `ReplaceMeans`. */
  lemma {:induction false} RemovedMeans(s: string, lab: string)
    requires '\n' !in s && '\n' !in lab
    ensures lab + ":" <= s ==> Removed(s, lab) == s[|lab| + 1..]
    ensures !(lab + ":" <= s) && EndsWith(s, ":" + lab) ==> Removed(s, lab) == s[..|s| - |lab| - 1]
    ensures !(lab + ":" <= s) && !EndsWith(s, ":" + lab) ==> Removed(s, lab) == Replace(s, ":" + lab + ":", ":")
  {
    if lab + ":" <= s {
      assert Removed(s, lab) == s[|lab| + 1..] by { FrontGoes(s, lab); }
    } else if EndsWith(s, ":" + lab) {
      assert Removed(s, lab) == s[..|s| - |lab| - 1] by { EndGoes(s, lab); }
    }
  }

  lemma {:induction false} FrontGoes(s: string, lab: string)
    requires '\n' !in s && lab + ":" <= s
    ensures Replace("\n" + s, "\n" + lab + ":", "") == s[|lab| + 1..]
  {
    var pat, after := "\n" + lab + ":", s[|lab| + 1..];
    assert s == (lab + ":") + after;
    assert "\n" + s == pat + after && ("\n" + s)[|pat|..] == after;
    ReplaceNothing(after, pat, "");
  }

  lemma {:induction false} EndGoes(s: string, lab: string)
    requires '\n' !in s && '\n' !in lab && EndsWith(s, ":" + lab)
    ensures Replace(s + "\n", ":" + lab + "\n", "") == s[..|s| - |lab| - 1]
  {
    var pat, front := ":" + lab + "\n", s[..|s| - |lab| - 1];
    assert s == front + (":" + lab);
    assert s + "\n" == front + pat;
    assert pat[|pat| - 1] == '\n' && pat[..|pat| - 1] == ":" + lab;
    ReplaceAtEnd(front, pat);
  }

  lemma {:induction false} RemoveFirst(ls: seq<string>)
    requires |ls| > 1 && AllPlain(ls)
    ensures Removed(Joined(ls), ls[0]) == Joined(ls[1..])
  {
    var lab, s, pat := ls[0], Joined(ls), "\n" + ls[0] + ":";
    FrontIsLabel(lab, ls[1..], lab);
    var after := Joined(ls[1..]);
    assert "\n" + s == pat + after && ("\n" + s)[|pat|..] == after;
    NoNewline(ls[1..]);
    assert after == Tail(ls[1..])[1..];
    ReplaceNothing(after, pat, "");
  }

  lemma {:induction false} RemoveLast(ls: seq<string>)
    requires |ls| > 1 && AllPlain(ls) && ls[0] != ls[|ls| - 1]
    ensures Removed(Joined(ls), ls[|ls| - 1]) == Joined(ls[..|ls| - 1])
  {
    var n := |ls| - 1;
    var lab, s, pat := ls[n], Joined(ls), ":" + ls[n] + "\n";
    FrontIsLabel(ls[0], ls[1..], lab);
    EndIsLabel(ls, lab);
    var front := Joined(ls[..n]);
    TailOfAppend(ls[1..n], [lab]);
    assert ls[1..] == ls[1..n] + [lab] && ls[..n][1..] == ls[1..n];
    assert s == front + (":" + lab);
    assert s + "\n" == front + pat;
    NoNewline(ls[1..n]);
    assert pat[|pat| - 1] == '\n' && pat[..|pat| - 1] == ":" + lab;
    ReplaceAtEnd(front, pat);
  }

  lemma {:induction false} RemoveInside(ls: seq<string>, lab: string)
    requires ls != [] && AllPlain(ls) && Plain(lab)
    requires |ls| == 1 || (ls[0] != lab && ls[|ls| - 1] != lab)
    ensures Removed(Joined(ls), lab) == Joined([ls[0]] + Thinned(ls[1..], lab))
  {
    FrontIsLabel(ls[0], ls[1..], lab);
    EndIsLabel(ls, lab);
    ReplaceThins(ls[1..], lab);
    ReplaceSkips(ls[0], Tail(ls[1..]), ":" + lab + ":", ":");
    assert ([ls[0]] + Thinned(ls[1..], lab))[1..] == Thinned(ls[1..], lab);
  }

  /** What `remove_label` does to a list of labels: the first is removed if it is
      the label, else the last if it is, else those in between. */
  function Left(ls: seq<string>, lab: string): (r: seq<string>)
    requires ls != []
    ensures r != []
  {
    if |ls| > 1 && ls[0] == lab then ls[1..]
    else if |ls| > 1 && ls[|ls| - 1] == lab then ls[..|ls| - 1]
    else [ls[0]] + Thinned(ls[1..], lab)
  }

  lemma {:induction false} ThinnedPlain(ls: seq<string>, lab: string)
    requires AllPlain(ls)
    ensures AllPlain(Thinned(ls, lab))
    decreases |ls|
  {
    if ls != [] { ThinnedPlain(if ls[0] == lab && |ls| > 1 then ls[2..] else ls[1..], lab); }
  }

  /** On every list of labels free of ':' and newline, repeated or not. */
  lemma {:induction false} RemoveMeans(ls: seq<string>, lab: string)
    requires ls != [] && AllPlain(ls) && Plain(lab)
    ensures Removed(Joined(ls), lab) == Joined(Left(ls, lab)) && Split(Removed(Joined(ls), lab)) == Left(ls, lab)
  {
    if |ls| > 1 && ls[0] == lab {
      RemoveFirst(ls);
    } else if |ls| > 1 && ls[|ls| - 1] == lab {
      RemoveLast(ls);
    } else {
      RemoveInside(ls, lab);
      ThinnedPlain(ls[1..], lab);
    }
    SplitJoined(Left(ls, lab));
  }

  predicate NoPair(ls: seq<string>, lab: string) {
    forall i :: 0 <= i < |ls| - 1 ==> !(ls[i] == lab && ls[i + 1] == lab)
  }

  lemma {:induction false} WithoutHas(ls: seq<string>, lab: string)
    ensures lab !in Without(ls, lab)
    decreases |ls|
  {
    if ls != [] { WithoutHas(ls[1..], lab); }
  }

  /** Of two in a row only one goes. */
  lemma {:induction false} ThinnedIff(ls: seq<string>, lab: string)
    requires ls != [] ==> ls[|ls| - 1] != lab
    ensures Thinned(ls, lab) == Without(ls, lab) <==> NoPair(ls, lab)
    decreases |ls|
  {
    if ls != [] {
      if ls[0] == lab {
        ThinnedIff(ls[2..], lab);
        WithoutHas(ls, lab);
        assert Thinned(ls, lab)[0] == ls[1];
        assert ls[1] != lab ==> Without(ls, lab) == [ls[1]] + Without(ls[2..], lab) by {
          assert ls[1..][1..] == ls[2..];
        }
        PairSkips(ls, lab, 2);
        SameTails(ls[1], Thinned(ls[2..], lab), Without(ls[2..], lab));
      } else {
        ThinnedIff(ls[1..], lab);
        PairSkips(ls, lab, 1);
        SameTails(ls[0], Thinned(ls[1..], lab), Without(ls[1..], lab));
      }
    }
  }

  lemma {:induction false} SameTails(x: string, a: seq<string>, b: seq<string>)
    ensures [x] + a == [x] + b <==> a == b
  {
    assert ([x] + a)[1..] == a && ([x] + b)[1..] == b;
  }

  /** A pair begins among the first labels or further on. */
  lemma {:induction false} PairSkips(ls: seq<string>, lab: string, k: nat)
    requires 0 < k <= |ls| && k <= 2 && (k < |ls| ==> ls[k - 1] != lab || (k == 2 && ls[1] == lab))
    ensures NoPair(ls, lab) <==>
            NoPair(ls[k..], lab) && (|ls| > 1 ==> !(ls[0] == lab && ls[1] == lab)) &&
            (k == 2 && |ls| > 2 ==> !(ls[1] == lab && ls[2] == lab))
  {
    assert forall i :: 0 <= i < |ls| - k ==> ls[k..][i] == ls[i + k];
    if NoPair(ls, lab) {
      forall i | 0 <= i < |ls| - k - 1 ensures !(ls[k..][i] == lab && ls[k..][i + 1] == lab) {
        assert !(ls[i + k] == lab && ls[i + k + 1] == lab);
      }
    }
    if NoPair(ls[k..], lab) {
      forall i | k <= i < |ls| - 1 ensures !(ls[i] == lab && ls[i + 1] == lab) {
        assert !(ls[k..][i - k] == lab && ls[k..][i - k + 1] == lab);
      }
    }
  }

  /** The label is nowhere but at one end, or in between and never twice in a row. */
  predicate Removable(ls: seq<string>, lab: string)
    requires ls != []
  {
    var n := |ls| - 1;
    if n == 0 then ls[0] != lab
    else if ls[0] == lab then lab !in ls[1..]
    else if ls[n] == lab then lab !in ls[..n]
    else NoPair(ls, lab)
  }

  /** On a list of labels free of ':' and newline, `remove_label` leaves the list
      without the label, order kept, exactly under this condition.  For different
      labels it is that the label is not the only one; then the string does not
      change. */
  lemma {:induction false} RemoveLabelIff(ls: seq<string>, lab: string)
    requires ls != [] && AllPlain(ls) && Plain(lab)
    ensures Split(Removed(Joined(ls), lab)) == Without(ls, lab) <==> Removable(ls, lab)
    ensures Distinct(ls) ==> (Removable(ls, lab) <==> ls != [lab])
    ensures ls == [lab] ==> Removed(Joined(ls), lab) == Joined(ls)
  {
    RemoveMeans(ls, lab);
    LeftIff(ls, lab);
    if Distinct(ls) && ls != [lab] { DistinctRemovable(ls, lab); }
    if ls == [lab] { assert Left(ls, lab) == ls; }
  }

  lemma {:induction false} LeftIff(ls: seq<string>, lab: string)
    requires ls != []
    ensures Left(ls, lab) == Without(ls, lab) <==> Removable(ls, lab)
  {
    var n := |ls| - 1;
    if n == 0 {
      assert ls[1..] == [] && ls == [ls[0]];
    } else if ls[0] == lab {
      FirstIff(ls, lab);
    } else if ls[n] == lab {
      LastIff(ls, lab);
    } else {
      ThinnedIff(ls[1..], lab);
      PairSkips(ls, lab, 1);
      SameTails(ls[0], Thinned(ls[1..], lab), Without(ls[1..], lab));
    }
  }

  lemma {:induction false} FirstIff(ls: seq<string>, lab: string)
    requires |ls| > 1 && ls[0] == lab
    ensures ls[1..] == Without(ls, lab) <==> lab !in ls[1..]
  {
    WithoutHas(ls, lab);
    if lab !in ls[1..] { WithoutAbsent(ls[1..], lab); }
  }

  lemma {:induction false} LastIff(ls: seq<string>, lab: string)
    requires |ls| > 1 && ls[|ls| - 1] == lab
    ensures ls[..|ls| - 1] == Without(ls, lab) <==> lab !in ls[..|ls| - 1]
  {
    WithoutHas(ls, lab);
    if lab !in ls[..|ls| - 1] { WithoutLast(ls, lab); }
  }

  lemma {:induction false} DistinctRemovable(ls: seq<string>, lab: string)
    requires ls != [] && Distinct(ls) && ls != [lab]
    ensures Removable(ls, lab)
  {
    var n := |ls| - 1;
    if n == 0 { assert ls == [ls[0]]; }
    forall i | 0 <= i < n ensures ls[1..][i] != ls[0] && ls[..n][i] != ls[n] {}
  }

  /** A vertex whose only label is A keeps it. */
  lemma {:induction false} OnlyLabelExample()
    ensures Removed("A", "A") == "A" && Without(["A"], "A") == []
  {
    JoinedOne("A");
    RemoveLabelIff(["A"], "A");
    assert Joined(["A"]) == "A";
  }

  lemma {:induction false} WithoutPlain(ls: seq<string>, lab: string)
    requires AllPlain(ls)
    ensures AllPlain(Without(ls, lab))
    decreases |ls|
  {
    if ls != [] { WithoutPlain(ls[1..], lab); }
  }

  lemma {:induction false} RemoveFromSplit(s: string, lab: string)
    ensures var ls := Split(s);
            AllPlain(ls) && Plain(lab) ==>
              && Split(Removed(s, lab)) == Left(ls, lab)
              && (Left(ls, lab) == Without(ls, lab) <==> Removable(ls, lab))
              && (Distinct(ls) ==> (Removable(ls, lab) <==> ls != [lab]))
  {
    var ls := Split(s);
    JoinedSplit(s);
    if AllPlain(ls) && Plain(lab) {
      RemoveMeans(ls, lab);
      RemoveLabelIff(ls, lab);
    }
  }

  // ---- the vertex

  class Vertex {
    var attr: string
    var frozen: bool

    /** The labels, none with a colon in it, whose joined form is the string. */
    method Labels() returns (ls: seq<string>)
      ensures ls != [] && NoColons(ls) && Joined(ls) == attr
    {
      ls := Split(attr);
      JoinedSplit(attr);
    }

    /** A frozen graph raises an error and keeps its string. */
    method AddLabel(lab: string) returns (raised: bool)
      modifies this`attr
      ensures raised <==> frozen
      ensures raised ==> attr == old(attr)
      ensures !raised ==> Split(attr) == Split(old(attr)) + Split(lab)
      ensures !raised && ':' !in lab ==> Split(attr) == Split(old(attr)) + [lab]
    {
      if frozen { return true; }
      AddedAppends(attr, lab);
      attr := attr + ":" + lab;
      raised := false;
    }

    /** Labels free of ':' and newline lose exactly the label under the condition
        of `RemoveLabelIff`; different ones, unless it is the only one. */
    method RemoveLabel(lab: string) returns (raised: bool)
      modifies this`attr
      ensures raised <==> frozen
      ensures attr == if raised then old(attr) else Removed(old(attr), lab)
      ensures var ls := Split(old(attr));
              !raised && AllPlain(ls) && Plain(lab) ==>
                && Split(attr) == Left(ls, lab)
                && (Split(attr) == Without(ls, lab) <==> Removable(ls, lab))
                && (Distinct(ls) ==> Split(attr) == if ls == [lab] then [lab] else Without(ls, lab))
    {
      if frozen { return true; }
      RemoveFromSplit(attr, lab);
      var labels := attr;
      if lab + ":" <= labels {
        labels := "\n" + labels;
        attr := Replace(labels, "\n" + lab + ":", "");
      } else if EndsWith(labels, ":" + lab) {
        labels := labels + "\n";
        attr := Replace(labels, ":" + lab + "\n", "");
      } else {
        attr := Replace(labels, ":" + lab + ":", ":");
      }
      raised := false;
    }
  }
}
