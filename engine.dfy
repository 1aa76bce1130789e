/**
 * The run of the program after the spec is parsed (main.go:138-190): read
 * the snapshots, sort them newest first, offer each one to every retention
 * in turn, and release, in ascending order, every name no retention kept.
 *
 * Reading standard input and `time.Parse` are replaced by the lines read
 * and a `parse` function from a line to its time (None when the line does
 * not parse); logging and printing are not modelled.
 */
module Engine {
  import opened Text
  import opened Periods
  import opened Snapshots
  import opened Retentions
  import opened StringOrder

  /** The names of the snapshots in ss. */
  ghost function NamesOf(ss: seq<Snap>): set<string> {
    set i | 0 <= i < |ss| :: ss[i].name
  }

  /** The snapshots read from lines: one per line that parses, in input order, named by the line. */
  function Ingest(parse: string -> Option<int>, lines: seq<string>): seq<Snap> {
    if lines == [] then []
    else
      var line := lines[|lines| - 1];
      Ingest(parse, lines[..|lines| - 1]) + match parse(line) {
        case None => []
        case Some(t) => [Snap(line, t)]
      }
  }

  /** Every snapshot read comes from a line that parses to its time, and every line that parses gives one. */
  lemma {:induction false} IngestKeepsParsedLines(parse: string -> Option<int>, lines: seq<string>)
    ensures forall s :: s in Ingest(parse, lines) ==> s.name in lines && parse(s.name) == Some(s.timestamp)
    ensures forall i :: 0 <= i < |lines| && parse(lines[i]).Some? ==>
              Snap(lines[i], parse(lines[i]).value) in Ingest(parse, lines)
  {
    if lines != [] {
      var init := lines[..|lines| - 1];
      IngestKeepsParsedLines(parse, init);
      forall i | 0 <= i < |lines| - 1
        ensures lines[i] == init[i]
      {
      }
    }
  }

  /** The names every retention holds between them: the names of `snapkeeps`. */
  ghost function ClaimedNames(ms: seq<Claims>): set<string> {
    if ms == [] then {} else ClaimedNames(ms[..|ms| - 1]) + NamesIn(ms[|ms| - 1])
  }

  /** The names of the snapshots one retention holds. */
  ghost function NamesIn(m: Claims): set<string> {
    set k | k in m :: m[k].name
  }

  /** A name is held when some retention holds a snapshot of that name. */
  lemma {:induction false} ClaimedNamesIff(ms: seq<Claims>, n: string)
    ensures n in ClaimedNames(ms) <==> exists j, k :: 0 <= j < |ms| && k in ms[j] && ms[j][k].name == n
  {
    if ms != [] {
      var init := ms[..|ms| - 1];
      ClaimedNamesIff(init, n);
      if n in ClaimedNames(ms) {
        if n !in ClaimedNames(init) {
          var k :| k in ms[|ms| - 1] && ms[|ms| - 1][k].name == n;
        } else {
          var j, k :| 0 <= j < |init| && k in init[j] && init[j][k].name == n;
          assert ms[j] == init[j];
        }
      }
      if exists j, k :: 0 <= j < |ms| && k in ms[j] && ms[j][k].name == n {
        var j, k :| 0 <= j < |ms| && k in ms[j] && ms[j][k].name == n;
        if j < |init| {
          assert init[j] == ms[j];
        }
      }
    }
  }

  /** Retentions holding nothing hold no names. */
  lemma {:induction false} EmptyClaimsNoNames(ms: seq<Claims>)
    requires forall j :: 0 <= j < |ms| ==> ms[j] == map[]
    ensures ClaimedNames(ms) == {}
  {
    if ms != [] {
      EmptyClaimsNoNames(ms[..|ms| - 1]);
    }
  }

  /** The claims of each policy of ps after being offered ss. */
  function AllClaimed(ps: seq<Policy>, ss: seq<Snap>): seq<Claims> {
    seq(|ps|, j requires 0 <= j < |ps| => Claimed(ps[j], ss))
  }

  /** The names kept by some retention with a policy in ps when offered ss. */
  ghost function KeptNames(ps: seq<Policy>, ss: seq<Snap>): set<string> {
    ClaimedNames(AllClaimed(ps, ss))
  }

  /** Only offered snapshots are kept. */
  lemma KeptNamesAreOffered(ps: seq<Policy>, ss: seq<Snap>)
    ensures KeptNames(ps, ss) <= NamesOf(ss)
  {
    var ms: seq<Claims> := AllClaimed(ps, ss);
    forall n | n in KeptNames(ps, ss)
      ensures n in NamesOf(ss)
    {
      ClaimedNamesIff(ms, n);
      var j, k :| 0 <= j < |ms| && k in ms[j] && ms[j][k].name == n;
      ClaimedSnapshotsAreOffered(KeyOf(ps[j]), ps[j].keep, ss);
      var i :| 0 <= i < |ss| && ss[i] == ms[j][k];
    }
  }

  /** Snapshots in another order have the same names. */
  lemma NamesOfPermutation(a: seq<Snap>, b: seq<Snap>)
    requires multiset(a) == multiset(b)
    ensures NamesOf(a) == NamesOf(b)
  {
    forall n | n in NamesOf(a)
      ensures n in NamesOf(b)
    {
      var i :| 0 <= i < |a| && a[i].name == n;
      assert a[i] in multiset(b);
      var x :| 0 <= x < |b| && b[x] == a[i];
    }
    forall n | n in NamesOf(b)
      ensures n in NamesOf(a)
    {
      var i :| 0 <= i < |b| && b[i].name == n;
      assert b[i] in multiset(a);
      var x :| 0 <= x < |a| && a[x] == b[i];
    }
  }

  lemma NamesOfAppend(ss: seq<Snap>, s: Snap)
    ensures NamesOf(ss + [s]) == NamesOf(ss) + {s.name}
  {
    assert (ss + [s])[|ss|] == s;
    forall n | n in NamesOf(ss)
      ensures n in NamesOf(ss + [s])
    {
      var i :| 0 <= i < |ss| && ss[i].name == n;
      assert (ss + [s])[i] == ss[i];
    }
  }

  /** Offering one more snapshot: the claims of the longer prefix are one claiming step on the shorter. */
  lemma ClaimedNext(p: Policy, ss: seq<Snap>, i: int)
    requires 0 <= i < |ss|
    ensures Claimed(p, ss[..i + 1]) == ClaimStep(KeyOf(p), p.keep, Claimed(p, ss[..i]), ss[i])
  {
    assert ss[..i + 1][..i] == ss[..i];
  }

  /** Offering one more snapshot to every policy of ps. */
  lemma AllClaimedNext(ps: seq<Policy>, ss: seq<Snap>, i: int)
    requires 0 <= i < |ss|
    ensures AllClaimed(ps, ss[..i + 1]) == StepAll(ps, AllClaimed(ps, ss[..i]), ss[i])
  {
    forall j | 0 <= j < |ps|
      ensures AllClaimed(ps, ss[..i + 1])[j] == StepAll(ps, AllClaimed(ps, ss[..i]), ss[i])[j]
    {
      ClaimedNext(ps[j], ss, i);
    }
  }

  /** A new claim adds exactly its snapshot's name to the names held. */
  lemma {:induction false} ClaimedNamesAdd(ms: seq<Claims>, j: int, k: PeriodKey, s: Snap)
    requires 0 <= j < |ms| && k !in ms[j]
    ensures ClaimedNames(ms[j := ms[j][k := s]]) == ClaimedNames(ms) + {s.name}
  {
    var after := ms[j := ms[j][k := s]];
    var last := |ms| - 1;
    if j == last {
      assert after[..last] == ms[..last];
      NamesInAdd(ms[j], k, s);
    } else {
      assert after[..last] == ms[..last][j := ms[j][k := s]];
      ClaimedNamesAdd(ms[..last], j, k, s);
    }
  }

  lemma NamesInAdd(m: Claims, k: PeriodKey, s: Snap)
    requires k !in m
    ensures NamesIn(m[k := s]) == NamesIn(m) + {s.name}
  {
    forall n | n in NamesIn(m)
      ensures n in NamesIn(m[k := s])
    {
      var x :| x in m && m[x].name == n;
      assert m[k := s][x] == m[x];
    }
    assert m[k := s][k] == s;
  }

  /** `kills` is `names` without the names in `kept`. */
  predicate Leaves(kills: map<string, Snap>, names: map<string, Snap>, kept: set<string>) {
    kills.Keys == names.Keys - kept && forall n :: n in kills ==> kills[n] == names[n]
  }

  lemma LeavesIsMinus(kills: map<string, Snap>, names: map<string, Snap>, kept: set<string>)
    requires Leaves(kills, names, kept)
    ensures kills == names - kept
  {
  }

  /** Keeping one more name removes it from what is left to release. */
  lemma KeepName(kills: map<string, Snap>, names: map<string, Snap>, keeps: map<string, Snap>, s: Snap)
    requires Leaves(kills, names, keeps.Keys)
    ensures Leaves(kills - {s.name}, names, keeps[s.name := s].Keys)
  {
    assert keeps[s.name := s].Keys == keeps.Keys + {s.name};
  }

  /**
   * Read the input (main.go:143-154): every line that parses becomes a
   * snapshot and is entered in `snapkills` under its name; a line that does
   * not parse is skipped.
   */
  method ReadSnaps(parse: string -> Option<int>, lines: seq<string>) returns (snaps: seq<Snap>, kills: map<string, Snap>)
    ensures snaps == Ingest(parse, lines)
    ensures kills.Keys == NamesOf(snaps)
    ensures forall n :: n in kills ==> kills[n].name == n && kills[n] in snaps
  {
    snaps, kills := [], map[];
    for i := 0 to |lines|
      invariant snaps == Ingest(parse, lines[..i])
      invariant kills.Keys == NamesOf(snaps)
      invariant forall n :: n in kills ==> kills[n].name == n && kills[n] in snaps
    {
      assert lines[..i + 1][..i] == lines[..i];
      var line := lines[i];
      match parse(line) {
        case None =>
        case Some(t) =>
          var snap := Snap(line, t);
          NamesOfAppend(snaps, snap);
          snaps := snaps + [snap];
          kills := kills[line := snap];
      }
    }
    assert lines[..|lines|] == lines;
  }

  /** Offer s to retentions with policies ps holding ms: one claiming step each. */
  function StepAll(ps: seq<Policy>, ms: seq<Claims>, s: Snap): seq<Claims>
    requires |ps| == |ms|
  {
    seq(|ps|, j requires 0 <= j < |ps| => ClaimStep(KeyOf(ps[j]), ps[j].keep, ms[j], s))
  }

  /**
   * The inner loop of main.go:160-175: offer one snapshot to each retention
   * in turn; a retention that claims it moves its name from `kills` to
   * `keeps`.  The ghost `ms0` and `ms` are what the retentions hold before
   * and after.
   */
  method OfferAll(snap: Snap, rs: seq<Retention>, keeps0: map<string, Snap>, kills0: map<string, Snap>,
                  ghost names: map<string, Snap>, ghost ms0: seq<Claims>)
      returns (keeps: map<string, Snap>, kills: map<string, Snap>, ghost ms: seq<Claims>)
    requires forall i, j :: 0 <= i < j < |rs| ==> rs[i] != rs[j]
    requires |ms0| == |rs| && forall j :: 0 <= j < |rs| ==> rs[j].snaps == ms0[j]
    requires keeps0.Keys == ClaimedNames(ms0) && Leaves(kills0, names, keeps0.Keys)
    requires forall n :: n in keeps0 ==> keeps0[n].name == n
    modifies set j | 0 <= j < |rs| :: rs[j]
    ensures ms == StepAll(Configs(rs), ms0, snap)
    ensures forall j :: 0 <= j < |rs| ==> rs[j].snaps == ms[j]
    ensures keeps.Keys == ClaimedNames(ms) && Leaves(kills, names, keeps.Keys)
    ensures forall n :: n in keeps ==> keeps[n].name == n
  {
    keeps, kills, ms := keeps0, kills0, ms0;
    ghost var ps := Configs(rs);
    ghost var goal := StepAll(ps, ms0, snap);
    for j := 0 to |rs|
      invariant |ms| == |rs|
      invariant forall x :: 0 <= x < |rs| ==> rs[x].snaps == ms[x]
      invariant forall x :: 0 <= x < j ==> ms[x] == goal[x]
      invariant forall x :: j <= x < |rs| ==> ms[x] == ms0[x]
      invariant keeps.Keys == ClaimedNames(ms) && Leaves(kills, names, keeps.Keys)
      invariant forall n :: n in keeps ==> keeps[n].name == n
    {
      keeps, kills := Offer(rs[j], snap, keeps, kills, names, ps, ms0, ms, j);
      ms := ms[j := rs[j].snaps];
    }
  }

  /**
   * Offer one snapshot to one retention (main.go:161-174): when it claims
   * the snapshot, the name moves from `kills` to `keeps`.  The ghost `ms0`
   * holds what every retention holds, r's claims at index j; `start` is
   * what they held before this snapshot and `ps` their policies.
   */
  method Offer(r: Retention, snap: Snap, keeps0: map<string, Snap>, kills0: map<string, Snap>,
               ghost names: map<string, Snap>, ghost ps: seq<Policy>, ghost start: seq<Claims>,
               ghost ms0: seq<Claims>, ghost j: int)
      returns (keeps: map<string, Snap>, kills: map<string, Snap>)
    requires |ps| == |start| == |ms0| && 0 <= j < |ms0|
    requires ps[j] == r.Config() && r.snaps == ms0[j] == start[j]
    requires keeps0.Keys == ClaimedNames(ms0) && Leaves(kills0, names, keeps0.Keys)
    requires forall n :: n in keeps0 ==> keeps0[n].name == n
    modifies r
    ensures r.snaps == StepAll(ps, start, snap)[j]
    ensures keeps.Keys == ClaimedNames(ms0[j := r.snaps]) && Leaves(kills, names, keeps.Keys)
    ensures forall n :: n in keeps ==> keeps[n].name == n
  {
    var claimed := r.Claim(snap);
    OfferBookkeeping(KeyOf(r.Config()), r.keep, snap, claimed, keeps0, kills0, names, ms0, j);
    if claimed {
      keeps, kills := keeps0[snap.name := snap], kills0 - {snap.name};
    } else {
      keeps, kills := keeps0, kills0;
    }
  }

  /** What `Offer` does to the name maps, for a retention that keys snapshots with `key`. */
  lemma OfferBookkeeping(key: Snap -> PeriodKey, keep: int, snap: Snap, claimed: bool,
                         keeps0: map<string, Snap>, kills0: map<string, Snap>, names: map<string, Snap>,
                         ms0: seq<Claims>, j: int)
    requires 0 <= j < |ms0| && (claimed <==> |ms0[j]| < keep && key(snap) !in ms0[j])
    requires keeps0.Keys == ClaimedNames(ms0) && Leaves(kills0, names, keeps0.Keys)
    requires forall n :: n in keeps0 ==> keeps0[n].name == n
    ensures var ms := ms0[j := ClaimStep(key, keep, ms0[j], snap)];
            var keeps := if claimed then keeps0[snap.name := snap] else keeps0;
            var kills := if claimed then kills0 - {snap.name} else kills0;
            keeps.Keys == ClaimedNames(ms) && Leaves(kills, names, keeps.Keys) &&
            forall n :: n in keeps ==> keeps[n].name == n
  {
    if claimed {
      ClaimedNamesAdd(ms0, j, key(snap), snap);
      KeepName(kills0, names, keeps0, snap);
    } else {
      assert ms0[j := ClaimStep(key, keep, ms0[j], snap)] == ms0;
    }
  }

  /**
   * The claiming loop (main.go:159-176): offer every snapshot, in order, to
   * every retention.  Each retention ends with exactly its claims on the
   * whole sequence, `keeps` names every snapshot some retention holds, and
   * `kills` keeps the rest of the names it started with.
   */
  method ClaimSnaps(snaps: seq<Snap>, rs: seq<Retention>, kills0: map<string, Snap>)
      returns (keeps: map<string, Snap>, kills: map<string, Snap>)
    requires forall i, j :: 0 <= i < j < |rs| ==> rs[i] != rs[j]
    requires forall j :: 0 <= j < |rs| ==> rs[j].snaps == map[]
    modifies set j | 0 <= j < |rs| :: rs[j]
    ensures forall j :: 0 <= j < |rs| ==> rs[j].snaps == Claimed(rs[j].Config(), snaps)
    ensures keeps.Keys == KeptNames(Configs(rs), snaps)
    ensures forall n :: n in keeps ==> keeps[n].name == n
    ensures kills == kills0 - keeps.Keys
  {
    keeps, kills := map[], kills0;
    ghost var ms := AllClaimed(Configs(rs), []);
    EmptyClaimsNoNames(ms);
    for i := 0 to |snaps|
      invariant ms == AllClaimed(Configs(rs), snaps[..i])
      invariant forall j :: 0 <= j < |rs| ==> rs[j].snaps == ms[j]
      invariant keeps.Keys == ClaimedNames(ms) && Leaves(kills, kills0, keeps.Keys)
      invariant forall n :: n in keeps ==> keeps[n].name == n
    {
      keeps, kills, ms := OfferAll(snaps[i], rs, keeps, kills, kills0, ms);
      AllClaimedNext(Configs(rs), snaps, i);
    }
    assert snaps[..|snaps|] == snaps;
    LeavesIsMinus(kills, kills0, keeps.Keys);
  }

  /**
   * One run of the program on the given input lines: the snapshots are
   * sorted newest first (`offered`), every retention ends with its claims on
   * that order, and the released names are the names read that no
   * retention kept, each once, in ascending order.
   */
  method Run(parse: string -> Option<int>, lines: seq<string>, rs: seq<Retention>)
      returns (released: seq<string>, ghost offered: seq<Snap>)
    requires forall i, j :: 0 <= i < j < |rs| ==> rs[i] != rs[j]
    requires forall j :: 0 <= j < |rs| ==> rs[j].snaps == map[]
    modifies set j | 0 <= j < |rs| :: rs[j]
    ensures NewestFirst(offered) && multiset(offered) == multiset(Ingest(parse, lines))
    ensures forall j :: 0 <= j < |rs| ==> rs[j].snaps == Claimed(rs[j].Config(), offered)
    ensures StrictlyAscending(released)
    ensures forall n :: n in released <==> n in NamesOf(Ingest(parse, lines)) && n !in KeptNames(Configs(rs), offered)
    ensures KeptNames(Configs(rs), offered) <= NamesOf(Ingest(parse, lines))
  {
    var input, kills0 := ReadSnaps(parse, lines);
    var arr := new Snap[|input|](i requires 0 <= i < |input| => input[i]);
    assert arr[..] == input;
    var sorter := new SnapSorter(arr);
    sorter.SortNewestFirst();
    offered := arr[..];
    var keeps, kills := ClaimSnaps(arr[..], rs, kills0);
    released := SortedKeys(kills);
    NamesOfPermutation(offered, input);
    KeptNamesAreOffered(Configs(rs), offered);
  }
}
