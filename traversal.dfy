/**
 * What `find_nets_delay` (graph.cpp:397-519) computes, as functions of the
 * tables it reads: the level-0 pins (the fan-out of every primary input),
 * the order in which the breadth-first pass visits pin keys, and the wire
 * delays it stores into `Nets`, as a list of (key, delay) writes applied in
 * order.
 */
module Traversal {
  import opened ParserHelper
  import opened Delay
  import opened GraphBuild

  /** A store `Nets[key].delay = delay`. */
  datatype DelayWrite = DelayWrite(key: string, delay: real)

  /** The `Nets` table after the writes, in order; a missing key is first value-initialised. */
  function ApplyDelays(nets: map<string, NetsInfo>, ws: seq<DelayWrite>): map<string, NetsInfo>
  {
    if ws == [] then nets
    else
      var n := ApplyDelays(nets, ws[..|ws| - 1]);
      var w := ws[|ws| - 1];
      n[w.key := NetOf(n, w.key).(delay := w.delay)]
  }

  // ---------------------------------------------------------------- level 0

  /** `fwdLevel0`: the fan-out lists of the primary inputs, concatenated in `piOrder`. */
  function Level0(pis: map<string, PiValues>, piOrder: seq<string>): seq<NetPin>
  {
    if piOrder == [] then []
    else Level0(pis, piOrder[..|piOrder| - 1]) + PiOf(pis, piOrder[|piOrder| - 1]).linksTo
  }

  /** The delays of the branches from primary input `pi` to each receiver of `links`. */
  function PiWrites(spefNets: map<string, SpefNet>, pi: string, links: seq<NetPin>): seq<DelayWrite>
  {
    if links == [] then []
    else
      var k := links[|links| - 1];
      PiWrites(spefNets, pi, links[..|links| - 1]) + [DelayWrite(pi + Key(k), NetDelay(SpefOf(spefNets, pi), pi, k.instanceName))]
  }

  /** The level-0 delay writes, primary input by primary input. */
  function Level0Writes(pis: map<string, PiValues>, spefNets: map<string, SpefNet>, piOrder: seq<string>): seq<DelayWrite>
  {
    if piOrder == [] then []
    else
      var pi := piOrder[|piOrder| - 1];
      Level0Writes(pis, spefNets, piOrder[..|piOrder| - 1]) + PiWrites(spefNets, pi, PiOf(pis, pi).linksTo)
  }

  // ---------------------------------------------------------------- one visited pin

  /** The `Nets` key of the branch of net `conn` to `k`: the bare net name towards a primary output. */
  function WireKey(conn: string, k: NetPin): string
  {
    if k.instanceName == "" then conn else conn + Key(k)
  }

  /** The delays of the branches of net `conn` to each pin of `links`. */
  function WireWrites(spefNets: map<string, SpefNet>, conn: string, links: seq<NetPin>): seq<DelayWrite>
  {
    if links == [] then []
    else
      var k := links[|links| - 1];
      WireWrites(spefNets, conn, links[..|links| - 1]) + [DelayWrite(WireKey(conn, k), NetDelay(SpefOf(spefNets, conn), conn, k.instanceName))]
  }

  /** The writes made when pin `key` is visited: none for a cell input pin, one per fan-out branch otherwise. */
  function PinWrites(pins: map<string, VerParserPinInfo>, spefNets: map<string, SpefNet>, key: string): seq<DelayWrite>
  {
    var pin := PinOf(pins, key);
    if pin.isInput then [] else WireWrites(spefNets, pin.connNetName, pin.linksTo)
  }

  /** The writes made by visiting the keys of `visited`, in order. */
  function VisitWrites(pins: map<string, VerParserPinInfo>, spefNets: map<string, SpefNet>, visited: seq<string>): seq<DelayWrite>
  {
    if visited == [] then []
    else VisitWrites(pins, spefNets, visited[..|visited| - 1]) + PinWrites(pins, spefNets, visited[|visited| - 1])
  }

  // ---------------------------------------------------------------- the breadth-first pass

  /** The fan-out lists of the keys of `ks`, concatenated. */
  function Succs(pins: map<string, VerParserPinInfo>, ks: seq<string>): seq<NetPin>
  {
    if ks == [] then [] else Succs(pins, ks[..|ks| - 1]) + PinOf(pins, ks[|ks| - 1]).linksTo
  }

  /** The `Pins` keys of the pins of `level`. */
  function KeysOf(level: seq<NetPin>): set<string>
  {
    set p | p in level :: Key(p)
  }

  /** The `Pins` keys of the fan-out of pin `k`. */
  function SuccKeys(pins: map<string, VerParserPinInfo>, k: string): set<string>
  {
    KeysOf(PinOf(pins, k).linksTo)
  }

  /** Every key any fan-out list of `pins` mentions: where every level after the first lies. */
  function AllSuccKeys(pins: map<string, VerParserPinInfo>): set<string>
  {
    set k, p | k in pins && p in pins[k].linksTo :: Key(p)
  }

  /**
   * One pass of the `for` loop over a level: each pin whose key is not yet
   * visited is appended to the visited list and contributes its fan-out to
   * the next level. Returns the visited list and the next level.
   */
  function LevelStep(pins: map<string, VerParserPinInfo>, level: seq<NetPin>, visited: seq<string>): (seq<string>, seq<NetPin>)
  {
    if level == [] then (visited, [])
    else
      var r := LevelStep(pins, level[..|level| - 1], visited);
      var k := Key(level[|level| - 1]);
      if k in r.0 then r else (r.0 + [k], r.1 + PinOf(pins, k).linksTo)
  }

  lemma {:induction false} SuccsAppend(pins: map<string, VerParserPinInfo>, a: seq<string>, b: seq<string>)
    ensures Succs(pins, a + b) == Succs(pins, a) + Succs(pins, b)
  {
    if b != [] {
      SuccsAppend(pins, a, b[..|b| - 1]);
      assert (a + b)[..|a + b| - 1] == a + b[..|b| - 1];
    } else {
      assert a + b == a;
    }
  }

  /** Every pin of `Succs(ks)` lies in the fan-out of some key of `ks`. */
  lemma {:induction false} SuccsFrom(pins: map<string, VerParserPinInfo>, ks: seq<string>)
    ensures forall p :: p in Succs(pins, ks) ==> exists i :: 0 <= i < |ks| && p in PinOf(pins, ks[i]).linksTo
    ensures forall i, p :: 0 <= i < |ks| && p in PinOf(pins, ks[i]).linksTo ==> p in Succs(pins, ks)
  {
    if ks != [] {
      var init := ks[..|ks| - 1];
      SuccsFrom(pins, init);
      forall p | p in Succs(pins, ks)
        ensures exists i :: 0 <= i < |ks| && p in PinOf(pins, ks[i]).linksTo
      {
        if p in Succs(pins, init) {
          var i :| 0 <= i < |init| && p in PinOf(pins, init[i]).linksTo;
          assert ks[i] == init[i];
        } else {
          assert p in PinOf(pins, ks[|ks| - 1]).linksTo;
        }
      }
      forall i, p | 0 <= i < |ks| && p in PinOf(pins, ks[i]).linksTo
        ensures p in Succs(pins, ks)
      {
        if i < |init| {
          assert init[i] == ks[i];
        }
      }
    }
  }

  /** The fan-out of any pin lies within `AllSuccKeys`. */
  lemma SuccKeysBounded(pins: map<string, VerParserPinInfo>, k: string)
    ensures SuccKeys(pins, k) <= AllSuccKeys(pins)
  {
    forall x | x in SuccKeys(pins, k)
      ensures x in AllSuccKeys(pins)
    {
      var p :| p in PinOf(pins, k).linksTo && Key(p) == x;
      assert k in pins;
    }
  }

  /** A level only appends to the visited list, and the next level is the fan-out of what it appended. */
  lemma {:induction false} LevelStepPrefix(pins: map<string, VerParserPinInfo>, level: seq<NetPin>, visited: seq<string>)
    ensures |visited| <= |LevelStep(pins, level, visited).0|
    ensures LevelStep(pins, level, visited).0[..|visited|] == visited
    ensures LevelStep(pins, level, visited).1 == Succs(pins, LevelStep(pins, level, visited).0[|visited|..])
  {
    if level == [] {
      assert visited[|visited|..] == [];
    } else {
      LevelStepPrefix(pins, level[..|level| - 1], visited);
      var r := LevelStep(pins, level[..|level| - 1], visited);
      var k := Key(level[|level| - 1]);
      if k !in r.0 {
        var v := r.0 + [k];
        assert v[..|visited|] == r.0[..|visited|];
        assert v[|visited|..] == r.0[|visited|..] + [k];
        SuccsAppend(pins, r.0[|visited|..], [k]);
        assert [k][..0] == [];
      }
    }
  }

  /** After a level every key of it is visited, and so is every key visited before. */
  lemma {:induction false} LevelStepCovers(pins: map<string, VerParserPinInfo>, level: seq<NetPin>, visited: seq<string>)
    ensures forall p :: p in level ==> Key(p) in LevelStep(pins, level, visited).0
    ensures forall k :: k in visited ==> k in LevelStep(pins, level, visited).0
  {
    if level != [] {
      var init, q := level[..|level| - 1], level[|level| - 1];
      LevelStepCovers(pins, init, visited);
      assert forall p :: p in level <==> p in init || p == q by {
        assert level == init + [q];
      }
    }
  }

  /** What a level appends are keys of the level that were not visited before, none twice. */
  lemma {:induction false} LevelStepFresh(pins: map<string, VerParserPinInfo>, level: seq<NetPin>, visited: seq<string>)
    ensures forall i :: |visited| <= i < |LevelStep(pins, level, visited).0| ==>
              LevelStep(pins, level, visited).0[i] in KeysOf(level) && LevelStep(pins, level, visited).0[i] !in visited
    ensures NoDup(visited) ==> NoDup(LevelStep(pins, level, visited).0)
  {
    LevelStepPrefix(pins, level, visited);
    if level != [] {
      var init, q := level[..|level| - 1], level[|level| - 1];
      LevelStepFresh(pins, init, visited);
      LevelStepPrefix(pins, init, visited);
      assert KeysOf(init) <= KeysOf(level) by {
        assert forall p :: p in init ==> p in level;
      }
      var r := LevelStep(pins, init, visited);
      var k := Key(q);
      if k !in r.0 {
        assert k in KeysOf(level);
        assert k !in visited by {
          assert r.0[..|visited|] == visited;
        }
      }
    }
  }

  /** The two facts above together. */
  lemma LevelStepKeys(pins: map<string, VerParserPinInfo>, level: seq<NetPin>, visited: seq<string>)
    ensures forall p :: p in level ==> Key(p) in LevelStep(pins, level, visited).0
    ensures forall k :: k in visited ==> k in LevelStep(pins, level, visited).0
    ensures forall i :: |visited| <= i < |LevelStep(pins, level, visited).0| ==>
              LevelStep(pins, level, visited).0[i] in KeysOf(level) && LevelStep(pins, level, visited).0[i] !in visited
    ensures NoDup(visited) ==> NoDup(LevelStep(pins, level, visited).0)
  {
    LevelStepCovers(pins, level, visited);
    LevelStepFresh(pins, level, visited);
  }

  /** A level leaves the visited list as it was exactly when none of its keys is new. */
  lemma LevelStepSame(pins: map<string, VerParserPinInfo>, level: seq<NetPin>, visited: seq<string>)
    ensures LevelStep(pins, level, visited).0 == visited <==> forall p :: p in level ==> Key(p) in visited
  {
    var v := LevelStep(pins, level, visited).0;
    LevelStepPrefix(pins, level, visited);
    LevelStepKeys(pins, level, visited);
    if v != visited {
      assert |v| > |visited|;
      var p :| p in level && Key(p) == v[|visited|];
    }
  }

  /** The facts above together. */
  lemma LevelStepFacts(pins: map<string, VerParserPinInfo>, level: seq<NetPin>, visited: seq<string>)
    ensures |visited| <= |LevelStep(pins, level, visited).0|
    ensures LevelStep(pins, level, visited).0[..|visited|] == visited
    ensures LevelStep(pins, level, visited).1 == Succs(pins, LevelStep(pins, level, visited).0[|visited|..])
    ensures forall p :: p in level ==> Key(p) in LevelStep(pins, level, visited).0
    ensures forall i :: |visited| <= i < |LevelStep(pins, level, visited).0| ==>
              LevelStep(pins, level, visited).0[i] in KeysOf(level) && LevelStep(pins, level, visited).0[i] !in visited
    ensures NoDup(visited) ==> NoDup(LevelStep(pins, level, visited).0)
    ensures LevelStep(pins, level, visited).0 == visited <==> forall p :: p in level ==> Key(p) in visited
  {
    LevelStepPrefix(pins, level, visited);
    LevelStepKeys(pins, level, visited);
    LevelStepSame(pins, level, visited);
  }

  /** The measure that decreases from level to level while some key is new. */
  function Remaining(pins: map<string, VerParserPinInfo>, level: seq<NetPin>, visited: seq<string>): nat
  {
    |(AllSuccKeys(pins) + KeysOf(level)) - set k | k in visited|
  }

  lemma {:induction false} SubsetCard<T>(a: set<T>, b: set<T>)
    requires a <= b
    ensures |a| <= |b|
    decreases a
  {
    if a != {} {
      var x :| x in a;
      SubsetCard(a - {x}, b - {x});
    }
  }

  /** A level that visits a new key strictly shrinks `Remaining`. */
  lemma RemainingDecreases(pins: map<string, VerParserPinInfo>, level: seq<NetPin>, visited: seq<string>)
    requires LevelStep(pins, level, visited).0 != visited
    ensures Remaining(pins, LevelStep(pins, level, visited).1, LevelStep(pins, level, visited).0) < Remaining(pins, level, visited)
  {
    var r := LevelStep(pins, level, visited);
    LevelStepFacts(pins, level, visited);
    assert |r.0| > |visited|;
    var k := r.0[|visited|];
    var A := AllSuccKeys(pins);
    assert KeysOf(r.1) <= A by {
      SuccsFrom(pins, r.0[|visited|..]);
      forall x | x in KeysOf(r.1)
        ensures x in A
      {
        var p :| p in r.1 && Key(p) == x;
        var i :| 0 <= i < |r.0[|visited|..]| && p in PinOf(pins, r.0[|visited|..][i]).linksTo;
        SuccKeysBounded(pins, r.0[|visited|..][i]);
      }
    }
    var after := (A + KeysOf(r.1)) - set x | x in r.0;
    var before := (A + KeysOf(level)) - set x | x in visited;
    assert k in r.0;
    assert k in before && k !in after;
    LevelStepKeys(pins, level, visited);
    assert after <= before;
    assert after + {k} <= before;
    assert |after + {k}| == |after| + 1;
    SubsetCard(after + {k}, before);
    assert Remaining(pins, r.1, r.0) == |after|;
    assert Remaining(pins, level, visited) == |before|;
  }

  /** A level with no new key leads to an empty next level and does not grow `Remaining`. */
  lemma RemainingFinal(pins: map<string, VerParserPinInfo>, level: seq<NetPin>, visited: seq<string>)
    requires LevelStep(pins, level, visited).0 == visited
    ensures LevelStep(pins, level, visited).1 == []
    ensures Remaining(pins, [], visited) <= Remaining(pins, level, visited)
  {
    LevelStepPrefix(pins, level, visited);
    assert visited[|visited|..] == [];
    SubsetCard(AllSuccKeys(pins) + KeysOf([]) - set x | x in visited, (AllSuccKeys(pins) + KeysOf(level)) - set x | x in visited);
  }

  /**
   * The `while (!isFinalLevel)` loop from level `level` with visited list
   * `visited`: the final visited list. The pass stops after a level in which
   * no key was new.
   */
  function Bfs(pins: map<string, VerParserPinInfo>, level: seq<NetPin>, visited: seq<string>): seq<string>
    decreases Remaining(pins, level, visited)
  {
    var r := LevelStep(pins, level, visited);
    if r.0 == visited then visited
    else
      RemainingDecreases(pins, level, visited);
      Bfs(pins, r.1, r.0)
  }

  // ---------------------------------------------------------------- the pass, proved

  /** Visit-once: the visited list never holds a key twice, and it only grows at the end. */
  lemma {:induction false} BfsNoDup(pins: map<string, VerParserPinInfo>, level: seq<NetPin>, visited: seq<string>)
    requires NoDup(visited)
    ensures NoDup(Bfs(pins, level, visited))
    ensures |visited| <= |Bfs(pins, level, visited)| && Bfs(pins, level, visited)[..|visited|] == visited
    decreases Remaining(pins, level, visited)
  {
    var r := LevelStep(pins, level, visited);
    LevelStepFacts(pins, level, visited);
    if r.0 != visited {
      RemainingDecreases(pins, level, visited);
      BfsNoDup(pins, r.1, r.0);
      var b := Bfs(pins, r.1, r.0);
      assert b[..|visited|] == b[..|r.0|][..|visited|];
    }
  }

  /**
   * Closure: every key of the starting level is visited, and the fan-out of
   * every visited key is visited, provided that held for the keys visited
   * before (their fan-out visited or waiting in `level`).
   */
  lemma {:induction false} BfsClosed(pins: map<string, VerParserPinInfo>, level: seq<NetPin>, visited: seq<string>)
    requires forall i, p :: 0 <= i < |visited| && p in PinOf(pins, visited[i]).linksTo ==> Key(p) in visited || p in level
    ensures forall p :: p in level ==> Key(p) in Bfs(pins, level, visited)
    ensures forall k :: k in visited ==> k in Bfs(pins, level, visited)
    ensures forall i, p :: 0 <= i < |Bfs(pins, level, visited)| && p in PinOf(pins, Bfs(pins, level, visited)[i]).linksTo ==>
              Key(p) in Bfs(pins, level, visited)
    decreases Remaining(pins, level, visited)
  {
    var r := LevelStep(pins, level, visited);
    LevelStepFacts(pins, level, visited);
    if r.0 != visited {
      RemainingDecreases(pins, level, visited);
      SuccsFrom(pins, r.0[|visited|..]);
      forall i, p | 0 <= i < |r.0| && p in PinOf(pins, r.0[i]).linksTo
        ensures Key(p) in r.0 || p in r.1
      {
        if i < |visited| {
          assert r.0[..|visited|][i] == r.0[i];
        } else {
          assert r.0[|visited|..][i - |visited|] == r.0[i];
        }
      }
      BfsClosed(pins, r.1, r.0);
      forall k | k in visited
        ensures k in r.0
      {
        var j :| 0 <= j < |visited| && visited[j] == k;
        assert r.0[..|visited|][j] == k;
      }
    }
  }

  /** Each visited key is a key of level 0 or the fan-out of a key visited before it. */
  predicate Discovered(pins: map<string, VerParserPinInfo>, roots: set<string>, v: seq<string>)
  {
    forall i :: 0 <= i < |v| ==> v[i] in roots || exists j :: 0 <= j < i && v[i] in SuccKeys(pins, v[j])
  }

  /** The level-reachability condition of a level: each of its keys is a root or in the fan-out of a visited key. */
  predicate Reached(pins: map<string, VerParserPinInfo>, roots: set<string>, level: seq<NetPin>, visited: seq<string>)
  {
    forall p :: p in level ==> Key(p) in roots || exists j :: 0 <= j < |visited| && Key(p) in SuccKeys(pins, visited[j])
  }

  /** A level keeps the visited list discovered. */
  lemma DiscoveredStep(pins: map<string, VerParserPinInfo>, roots: set<string>, level: seq<NetPin>, visited: seq<string>)
    requires Discovered(pins, roots, visited)
    requires Reached(pins, roots, level, visited)
    ensures Discovered(pins, roots, LevelStep(pins, level, visited).0)
  {
    var v := LevelStep(pins, level, visited).0;
    LevelStepPrefix(pins, level, visited);
    LevelStepKeys(pins, level, visited);
    forall i | 0 <= i < |v|
      ensures v[i] in roots || exists j :: 0 <= j < i && v[i] in SuccKeys(pins, v[j])
    {
      if i < |visited| {
        assert v[..|visited|][i] == v[i];
        if v[i] !in roots {
          var j :| 0 <= j < i && visited[i] in SuccKeys(pins, visited[j]);
          assert v[..|visited|][j] == v[j];
        }
      } else {
        var p :| p in level && Key(p) == v[i];
        if v[i] !in roots {
          var j :| 0 <= j < |visited| && Key(p) in SuccKeys(pins, visited[j]);
          assert v[..|visited|][j] == v[j];
        }
      }
    }
  }

  /** The next level is reached from the visited list the level produced. */
  lemma NextReached(pins: map<string, VerParserPinInfo>, roots: set<string>, level: seq<NetPin>, visited: seq<string>)
    ensures Reached(pins, roots, LevelStep(pins, level, visited).1, LevelStep(pins, level, visited).0)
  {
    var r := LevelStep(pins, level, visited);
    LevelStepPrefix(pins, level, visited);
    SuccsFrom(pins, r.0[|visited|..]);
    forall p | p in r.1
      ensures exists j :: 0 <= j < |r.0| && Key(p) in SuccKeys(pins, r.0[j])
    {
      var i :| 0 <= i < |r.0[|visited|..]| && p in PinOf(pins, r.0[|visited|..][i]).linksTo;
      assert r.0[|visited|..][i] == r.0[|visited| + i];
    }
  }

  /** Only keys reachable from level 0 are visited: nothing is visited out of thin air. */
  lemma {:induction false} BfsDiscovered(pins: map<string, VerParserPinInfo>, roots: set<string>, level: seq<NetPin>, visited: seq<string>)
    requires Discovered(pins, roots, visited)
    requires Reached(pins, roots, level, visited)
    ensures Discovered(pins, roots, Bfs(pins, level, visited))
    decreases Remaining(pins, level, visited)
  {
    var r := LevelStep(pins, level, visited);
    if r.0 != visited {
      RemainingDecreases(pins, level, visited);
      DiscoveredStep(pins, roots, level, visited);
      NextReached(pins, roots, level, visited);
      BfsDiscovered(pins, roots, r.1, r.0);
    }
  }

  /**
   * The pass from the primary inputs' fan-out with nothing visited visits
   * each key at most once, visits every level-0 key and the fan-out of every
   * visited key, and visits only keys reached from level 0 through fan-out.
   */
  lemma ForwardPass(pins: map<string, VerParserPinInfo>, level0: seq<NetPin>)
    ensures NoDup(Bfs(pins, level0, []))
    ensures forall p :: p in level0 ==> Key(p) in Bfs(pins, level0, [])
    ensures forall i, p :: 0 <= i < |Bfs(pins, level0, [])| && p in PinOf(pins, Bfs(pins, level0, [])[i]).linksTo ==>
              Key(p) in Bfs(pins, level0, [])
    ensures Discovered(pins, KeysOf(level0), Bfs(pins, level0, []))
  {
    BfsNoDup(pins, level0, []);
    BfsClosed(pins, level0, []);
    BfsDiscovered(pins, KeysOf(level0), level0, []);
  }

  // ---------------------------------------------------------------- the writes, proved

  lemma ApplyDelaysSnoc(nets: map<string, NetsInfo>, ws: seq<DelayWrite>, w: DelayWrite)
    ensures ApplyDelays(nets, ws + [w]) == ApplyDelays(nets, ws)[w.key := NetOf(ApplyDelays(nets, ws), w.key).(delay := w.delay)]
  {
    assert (ws + [w])[..|ws|] == ws;
  }

  lemma {:induction false} ApplyDelaysAppend(nets: map<string, NetsInfo>, a: seq<DelayWrite>, b: seq<DelayWrite>)
    ensures ApplyDelays(nets, a + b) == ApplyDelays(ApplyDelays(nets, a), b)
  {
    if b != [] {
      ApplyDelaysAppend(nets, a, b[..|b| - 1]);
      assert (a + b)[..|a + b| - 1] == a + b[..|b| - 1];
    } else {
      assert a + b == a;
    }
  }

  /** The keys written by `ws`. */
  function WrittenKeys(ws: seq<DelayWrite>): set<string>
  {
    set w | w in ws :: w.key
  }

  /**
   * The delay writes change only `delay`: every other field of every entry
   * stays as it was, and an entry the writes do not name is untouched.
   */
  lemma {:induction false} ApplyDelaysEffect(nets: map<string, NetsInfo>, ws: seq<DelayWrite>)
    ensures forall k :: NetOf(ApplyDelays(nets, ws), k).(delay := NetOf(nets, k).delay) == NetOf(nets, k)
    ensures forall k :: k in ApplyDelays(nets, ws) <==> k in nets || k in WrittenKeys(ws)
    ensures forall k :: k !in WrittenKeys(ws) ==> NetOf(ApplyDelays(nets, ws), k) == NetOf(nets, k)
  {
    if ws != [] {
      var init, w := ws[..|ws| - 1], ws[|ws| - 1];
      ApplyDelaysEffect(nets, init);
      assert WrittenKeys(ws) == WrittenKeys(init) + {w.key} by {
        assert forall x :: x in ws <==> x in init || x == w by {
          assert ws == init + [w];
        }
      }
    }
  }

  /** A named entry ends with the delay of the last write naming it. */
  lemma {:induction false} ApplyDelaysLastWins(nets: map<string, NetsInfo>, ws: seq<DelayWrite>)
    ensures forall i :: 0 <= i < |ws| && (forall j :: i < j < |ws| ==> ws[j].key != ws[i].key) ==>
              NetOf(ApplyDelays(nets, ws), ws[i].key).delay == ws[i].delay
  {
    if ws != [] {
      var init, w := ws[..|ws| - 1], ws[|ws| - 1];
      ApplyDelaysLastWins(nets, init);
      forall i | 0 <= i < |ws| && (forall j :: i < j < |ws| ==> ws[j].key != ws[i].key)
        ensures NetOf(ApplyDelays(nets, ws), ws[i].key).delay == ws[i].delay
      {
        if i < |init| {
          assert init[i] == ws[i];
          assert forall j :: i < j < |init| ==> init[j] == ws[j];
        }
      }
    }
  }

  /** The i-th branch from a primary input gets the key `pi + inst + pin` and the delay of net `pi` towards its instance. */
  lemma {:induction false} PiWritesAt(spefNets: map<string, SpefNet>, pi: string, links: seq<NetPin>)
    ensures |PiWrites(spefNets, pi, links)| == |links|
    ensures forall i :: 0 <= i < |links| ==>
              PiWrites(spefNets, pi, links)[i] == DelayWrite(pi + Key(links[i]), NetDelay(SpefOf(spefNets, pi), pi, links[i].instanceName))
  {
    if links != [] {
      PiWritesAt(spefNets, pi, links[..|links| - 1]);
    }
  }

  /** The i-th branch of net `conn` gets the key `WireKey(conn, links[i])` and the delay of `conn` towards its instance. */
  lemma {:induction false} WireWritesAt(spefNets: map<string, SpefNet>, conn: string, links: seq<NetPin>)
    ensures |WireWrites(spefNets, conn, links)| == |links|
    ensures forall i :: 0 <= i < |links| ==>
              WireWrites(spefNets, conn, links)[i] == DelayWrite(WireKey(conn, links[i]), NetDelay(SpefOf(spefNets, conn), conn, links[i].instanceName))
  {
    if links != [] {
      WireWritesAt(spefNets, conn, links[..|links| - 1]);
    }
  }

  /** A cell input pin writes nothing; another pin writes one delay per fan-out branch, keyed by `WireKey`. */
  lemma PinWritesShape(pins: map<string, VerParserPinInfo>, spefNets: map<string, SpefNet>, key: string)
    ensures PinOf(pins, key).isInput ==> PinWrites(pins, spefNets, key) == []
    ensures !PinOf(pins, key).isInput ==>
              var pin := PinOf(pins, key);
              |PinWrites(pins, spefNets, key)| == |pin.linksTo|
              && forall i :: 0 <= i < |pin.linksTo| ==>
                   PinWrites(pins, spefNets, key)[i].key == WireKey(pin.connNetName, pin.linksTo[i])
                   && PinWrites(pins, spefNets, key)[i].delay == NetDelay(SpefOf(spefNets, pin.connNetName), pin.connNetName, pin.linksTo[i].instanceName)
  {
    WireWritesAt(spefNets, PinOf(pins, key).connNetName, PinOf(pins, key).linksTo);
  }

  /** Visiting one more key appends that key's writes. */
  lemma VisitWritesSnoc(pins: map<string, VerParserPinInfo>, spefNets: map<string, SpefNet>, visited: seq<string>, key: string)
    ensures VisitWrites(pins, spefNets, visited + [key]) == VisitWrites(pins, spefNets, visited) + PinWrites(pins, spefNets, key)
  {
    assert (visited + [key])[..|visited|] == visited;
  }

  /** A key that is not visited contributes no writes, so only visited non-input pins write delays. */
  lemma {:induction false} VisitWritesFrom(pins: map<string, VerParserPinInfo>, spefNets: map<string, SpefNet>, visited: seq<string>)
    ensures forall w :: w in VisitWrites(pins, spefNets, visited) ==>
              exists i :: 0 <= i < |visited| && !PinOf(pins, visited[i]).isInput && w in PinWrites(pins, spefNets, visited[i])
  {
    if visited != [] {
      var init := visited[..|visited| - 1];
      VisitWritesFrom(pins, spefNets, init);
      forall w | w in VisitWrites(pins, spefNets, visited)
        ensures exists i :: 0 <= i < |visited| && !PinOf(pins, visited[i]).isInput && w in PinWrites(pins, spefNets, visited[i])
      {
        if w in VisitWrites(pins, spefNets, init) {
          var i :| 0 <= i < |init| && !PinOf(pins, init[i]).isInput && w in PinWrites(pins, spefNets, init[i]);
          assert visited[i] == init[i];
        } else {
          assert w in PinWrites(pins, spefNets, visited[|visited| - 1]);
        }
      }
    }
  }
}
