/**
 * The timing graph of graph.cpp: the global hash tables as the fields of one
 * object, `create_graph` and `find_nets_delay` as methods that update them in
 * place, each proved to leave the tables as the functions of `GraphBuild` and
 * `Traversal` describe.
 */
module Graph {
  import opened ParserHelper
  import opened Delay
  import opened GraphBuild
  import opened Traversal

  class TimingGraph {
    /**
     * `Cells`: filled by the Liberty parser. `find_nets_delay` looks a cell up
     * only for a pin search and a fan-out whose results it discards, so no
     * modelled operation consults it.
     */
    var cells: map<string, LibParserCellInfo>
    /** `NetsHelper`, `SpefNets`: filled by the parsers and only read here. */
    var netsHelper: map<string, NetParserInfo>
    var spefNets: map<string, SpefNet>
    /** `Pins`: filled by the netlist parser and extended by `create_graph`. */
    var pins: map<string, VerParserPinInfo>
    /** `PIs`, `POs`, `Nets`: defined in graph.cpp and empty at start-up. */
    var pis: map<string, PiValues>
    var pos: map<string, PoValues>
    var nets: map<string, NetsInfo>

    /** The tables as the parsers leave them, before `create_graph`. */
    constructor(cells: map<string, LibParserCellInfo>, netsHelper: map<string, NetParserInfo>,
                spefNets: map<string, SpefNet>, pins: map<string, VerParserPinInfo>)
      ensures this.cells == cells && this.netsHelper == netsHelper
      ensures this.spefNets == spefNets && this.pins == pins
      ensures pis == map[] && pos == map[] && nets == map[]
    {
      this.cells := cells;
      this.netsHelper := netsHelper;
      this.spefNets := spefNets;
      this.pins := pins;
      pis := map[];
      pos := map[];
      nets := map[];
    }

    /** The four tables `create_graph` writes. */
    function State(): GraphState
      reads this
    {
      GraphState(pins, pis, pos, nets)
    }

    // ---------------------------------------------------------------- create_graph

    /** graph.cpp:33-50. */
    method PrimaryOutput(net: string, ni: NetParserInfo)
      modifies this`pins, this`pos, this`nets
      ensures State() == PrimaryOutputStep(old(State()), net, ni)
    {
      var key := ni.output.instanceName + ni.output.pinName;
      assert key == Key(ni.output);
      pos := pos[net := PoOf(pos, net).(linkedBy := ni.output, trREarly := DblMax, trFEarly := DblMax, trRLate := DblMin, trFLate := DblMin)];
      var newPin := NetPin("", net, "");
      pins := pins[key := PinOf(pins, key).(linksTo := PinOf(pins, key).linksTo + [newPin])];
      nets := nets[net := NetOf(nets, net).(netName := net, fromPin := newPin)];
    }

    /** graph.cpp:54-69. */
    method PrimaryInput(net: string, ni: NetParserInfo)
      modifies this`pins, this`pis, this`nets
      ensures State() == PrimaryInputStep(old(State()), net, ni)
    {
      pis := pis[net := PiOf(pis, net).(linksTo := ni.inputs)];
      var rs := ni.inputs;
      for m := 0 to |rs|
        invariant nets == ToPinWrites(old(nets), net, rs[..m])
        invariant pins == AppendLinkedBy(old(pins), rs[..m], Synthetic(net))
        invariant pis == old(pis)[net := PiOf(old(pis), net).(linksTo := ni.inputs)]
        invariant pos == old(pos)
      {
        var i := rs[m];
        var key3 := i.instanceName + i.pinName;
        var netsKey := net + i.instanceName + i.pinName;
        assert netsKey == net + Key(i);
        nets := nets[netsKey := NetOf(nets, netsKey).(toPin := i, netName := net)];
        var newPin := NetPin("", net, "");
        pins := pins[key3 := PinOf(pins, key3).(linkedBy := PinOf(pins, key3).linkedBy + [newPin])];
        assert rs[..m + 1][..m] == rs[..m];
      }
      assert rs[..|rs|] == rs;
    }

    /** graph.cpp:72-82. */
    method Driver(net: string, ni: NetParserInfo)
      modifies this`pins, this`nets
      ensures State() == DriverStep(old(State()), net, ni)
    {
      var key := ni.output.instanceName + ni.output.pinName;
      if key != "" {
        pins := pins[key := PinOf(pins, key).(linksTo := PinOf(pins, key).linksTo + ni.inputs)];
        var rs := ni.inputs;
        for m := 0 to |rs|
          invariant nets == ToPinWrites(old(nets), net, rs[..m])
          invariant pins == old(pins)[key := PinOf(old(pins), key).(linksTo := PinOf(old(pins), key).linksTo + ni.inputs)]
        {
          var i := rs[m];
          var netsKey := net + i.instanceName + i.pinName;
          assert netsKey == net + Key(i);
          nets := nets[netsKey := NetOf(nets, netsKey).(toPin := i, netName := net)];
          assert rs[..m + 1][..m] == rs[..m];
        }
        assert rs[..|rs|] == rs;
      }
    }

    /**
     * graph.cpp:86-98. The loop condition carries the test that the net is
     * neither a primary input nor a primary output; the inner loop walks the
     * receiver's whole fan-in and leaves `fromPin` at its last entry, the
     * driver just appended.
     */
    method Internal(net: string, ni: NetParserInfo)
      modifies this`pins, this`nets
      ensures State() == InternalStep(old(State()), net, ni)
    {
      var rs := ni.inputs;
      var m := 0;
      while m < |rs| && !ni.isPrimaryIn && !ni.isPrimaryOut
        invariant 0 <= m <= |rs|
        invariant (ni.isPrimaryIn || ni.isPrimaryOut) ==> m == 0
        invariant nets == FromPinWrites(old(nets), net, rs[..m], ni.output)
        invariant pins == AppendLinkedBy(old(pins), rs[..m], ni.output)
      {
        var i := rs[m];
        var key2 := i.instanceName + i.pinName;
        assert key2 == Key(i);
        assert rs[..m + 1][..m] == rs[..m];
        pins := pins[key2 := PinOf(pins, key2).(linkedBy := PinOf(pins, key2).linkedBy + [ni.output])];
        var netsKey := net + i.instanceName + i.pinName;
        assert netsKey == net + Key(i);
        var linkedBy := PinOf(pins, key2).linkedBy;
        ghost var before := nets;
        ghost var pinsNow := pins;
        for t := 0 to |linkedBy|
          invariant pins == pinsNow
          invariant t == 0 ==> nets == before
          invariant t > 0 ==> nets == before[netsKey := NetOf(before, netsKey).(fromPin := linkedBy[t - 1], netName := net)]
        {
          nets := nets[netsKey := NetOf(nets, netsKey).(fromPin := linkedBy[t], netName := net)];
        }
        assert rs[..m + 1][..m] == rs[..m];
        m := m + 1;
      }
      if !ni.isPrimaryIn && !ni.isPrimaryOut {
        assert rs[..|rs|] == rs;
      }
    }

    /**
     * graph.cpp:21-106. One pass over `NetsHelper` in the iteration order
     * `order` (every net exactly once); returns 1.
     */
    method CreateGraph(order: seq<string>) returns (result: int)
      requires NoDup(order)
      requires forall i :: 0 <= i < |order| ==> order[i] in netsHelper
      requires forall net :: net in netsHelper ==> net in order
      modifies this`pins, this`pis, this`pos, this`nets
      ensures State() == Build(old(State()), netsHelper, order)
      ensures result == 1
    {
      for j := 0 to |order|
        invariant State() == Build(old(State()), netsHelper, order[..j])
      {
        var net := order[j];
        var ni := netsHelper[net];
        if ni.isPrimaryOut {
          PrimaryOutput(net, ni);
        }
        if ni.isPrimaryIn {
          PrimaryInput(net, ni);
        }
        Driver(net, ni);
        Internal(net, ni);
        assert order[..j + 1][..j] == order[..j];
      }
      assert order[..|order|] == order;
      result := 1;
    }

    // ---------------------------------------------------------------- find_nets_delay

    /**
     * graph.cpp:397-519. Level 0 is the fan-out of every primary input (in
     * the iteration order `piOrder` of `PIs`), each of whose branches gets
     * its wire delay; then the breadth-first pass visits each pin key once
     * and stores the delay of every branch leaving a visited non-input pin.
     * Returns 1; only the delays in `Nets` change.
     */
    method FindNetsDelay(piOrder: seq<string>) returns (result: int)
      requires NoDup(piOrder)
      requires forall i :: 0 <= i < |piOrder| ==> piOrder[i] in pis
      requires forall pi :: pi in pis ==> pi in piOrder
      modifies this`nets
      ensures nets == ApplyDelays(old(nets), Level0Writes(pis, spefNets, piOrder)
                                             + VisitWrites(pins, spefNets, Bfs(pins, Level0(pis, piOrder), [])))
      ensures result == 1
    {
      var fwdLevel0 := PrimaryInputDelays(piOrder);
      ghost var w0 := Level0Writes(pis, spefNets, piOrder);
      var visited: seq<string> := [];
      assert w0 + VisitWrites(pins, spefNets, visited) == w0;
      var isFinalLevel := false;
      var currLevel := fwdLevel0;
      while !isFinalLevel
        invariant !isFinalLevel ==> Bfs(pins, currLevel, visited) == Bfs(pins, fwdLevel0, [])
        invariant isFinalLevel ==> visited == Bfs(pins, fwdLevel0, [])
        invariant nets == ApplyDelays(old(nets), w0 + VisitWrites(pins, spefNets, visited))
        decreases Remaining(pins, currLevel, visited) + (if isFinalLevel then 0 else 1)
      {
        ghost var v0 := visited;
        var nextLevel;
        visited, nextLevel, isFinalLevel := VisitLevel(currLevel, visited, old(nets), w0);
        if isFinalLevel {
          RemainingFinal(pins, currLevel, v0);
        } else {
          RemainingDecreases(pins, currLevel, v0);
        }
        currLevel := nextLevel;
      }
      result := 1;
    }

    /**
     * graph.cpp:415-427: level 0 of the forward pass, in the iteration order
     * `piOrder` of `PIs`. Every branch leaving a primary input gets the delay
     * of that net towards its instance; returns the concatenated branches.
     */
    method PrimaryInputDelays(piOrder: seq<string>) returns (fwdLevel0: seq<NetPin>)
      modifies this`nets
      ensures fwdLevel0 == Level0(pis, piOrder)
      ensures nets == ApplyDelays(old(nets), Level0Writes(pis, spefNets, piOrder))
    {
      fwdLevel0 := [];
      for j := 0 to |piOrder|
        invariant fwdLevel0 == Level0(pis, piOrder[..j])
        invariant nets == ApplyDelays(old(nets), Level0Writes(pis, spefNets, piOrder[..j]))
      {
        var pi := piOrder[j];
        var links := PiOf(pis, pi).linksTo;
        assert piOrder[..j + 1][..j] == piOrder[..j];
        fwdLevel0 := fwdLevel0 + links;
        PrimaryInputBranches(pi, links, old(nets), Level0Writes(pis, spefNets, piOrder[..j]));
      }
      assert piOrder[..|piOrder|] == piOrder;
    }

    /**
     * graph.cpp:419-425: the branches `links` of primary input `pi`, each
     * keyed `pi + instance + pin` and given the delay of net `pi` towards the
     * receiving instance, applied after the writes `ws` made before.
     */
    method PrimaryInputBranches(pi: string, links: seq<NetPin>, ghost base: map<string, NetsInfo>, ghost ws: seq<DelayWrite>)
      requires nets == ApplyDelays(base, ws)
      modifies this`nets
      ensures nets == ApplyDelays(base, ws + PiWrites(spefNets, pi, links))
    {
      assert ws + PiWrites(spefNets, pi, links[..0]) == ws;
      for m := 0 to |links|
        invariant nets == ApplyDelays(base, ws + PiWrites(spefNets, pi, links[..m]))
      {
        var k := links[m];
        var netsKey := pi + k.instanceName + k.pinName;
        var d := CalculateNetDelay(spefNets, pi, k.instanceName);
        ghost var prev := ws + PiWrites(spefNets, pi, links[..m]);
        ghost var w := DelayWrite(pi + Key(k), NetDelay(SpefOf(spefNets, pi), pi, k.instanceName));
        assert netsKey == w.key;
        ApplyDelaysSnoc(base, prev, w);
        nets := nets[netsKey := NetOf(nets, netsKey).(delay := d)];
        assert links[..m + 1][..m] == links[..m];
        assert prev + [w] == ws + PiWrites(spefNets, pi, links[..m + 1]);
      }
      assert links[..|links|] == links;
    }

    /**
     * graph.cpp:441-506: one level of the forward pass. Each pin of
     * `currLevel` whose key is not yet visited is visited (its branch delays
     * stored) and its `linksTo` appended to the next level; `isFinalLevel`
     * holds exactly when no key was new.
     */
    method VisitLevel(currLevel: seq<NetPin>, visited0: seq<string>, ghost base: map<string, NetsInfo>, ghost w0: seq<DelayWrite>)
      returns (visited: seq<string>, nextLevel: seq<NetPin>, isFinalLevel: bool)
      requires nets == ApplyDelays(base, w0 + VisitWrites(pins, spefNets, visited0))
      modifies this`nets
      ensures (visited, nextLevel) == LevelStep(pins, currLevel, visited0)
      ensures isFinalLevel <==> visited == visited0
      ensures nets == ApplyDelays(base, w0 + VisitWrites(pins, spefNets, visited))
    {
      visited := visited0;
      nextLevel := [];
      isFinalLevel := true;
      for i := 0 to |currLevel|
        invariant (visited, nextLevel) == LevelStep(pins, currLevel[..i], visited0)
        invariant isFinalLevel == (visited == visited0)
        invariant nets == ApplyDelays(base, w0 + VisitWrites(pins, spefNets, visited))
      {
        var p := currLevel[i];
        var key := p.instanceName + p.pinName;
        assert key == Key(p);
        assert currLevel[..i + 1][..i] == currLevel[..i];
        LevelStepPrefix(pins, currLevel[..i], visited0);
        if key !in visited {
          isFinalLevel := false;
          VisitKey(key, base, w0, visited);
          visited := visited + [key];
          nextLevel := nextLevel + PinOf(pins, key).linksTo;
        }
      }
      assert currLevel[..|currLevel|] == currLevel;
    }

    /**
     * graph.cpp:459-487: the writes of visiting pin `key` after those of the
     * keys `visited` (on top of `ws`, applied to `base`). An input pin's
     * branches get no wire delay; every branch leaving another pin gets the
     * delay of net `connNetName` towards the receiving instance.
     */
    method VisitKey(key: string, ghost base: map<string, NetsInfo>, ghost ws: seq<DelayWrite>, ghost visited: seq<string>)
      requires nets == ApplyDelays(base, ws + VisitWrites(pins, spefNets, visited))
      modifies this`nets
      ensures nets == ApplyDelays(base, ws + VisitWrites(pins, spefNets, visited + [key]))
    {
      var pin := PinOf(pins, key);
      ghost var vw := ws + VisitWrites(pins, spefNets, visited);
      VisitWritesSnoc(pins, spefNets, visited, key);
      assert ws + VisitWrites(pins, spefNets, visited + [key]) == vw + PinWrites(pins, spefNets, key);
      if !pin.isInput {
        VisitPin(pin, base, vw);
      } else {
        assert vw + [] == vw;
      }
    }

    /**
     * graph.cpp:477-487: the branches of a visited non-input pin `pin`, each
     * keyed by `WireKey` and given the delay of net `pin.connNetName` towards
     * the receiving instance, applied after the writes `ws` made before.
     */
    method VisitPin(pin: VerParserPinInfo, ghost base: map<string, NetsInfo>, ghost ws: seq<DelayWrite>)
      requires nets == ApplyDelays(base, ws)
      modifies this`nets
      ensures nets == ApplyDelays(base, ws + WireWrites(spefNets, pin.connNetName, pin.linksTo))
    {
      var links := pin.linksTo;
      var conn := pin.connNetName;
      assert ws + WireWrites(spefNets, conn, links[..0]) == ws;
      for m := 0 to |links|
        invariant nets == ApplyDelays(base, ws + WireWrites(spefNets, conn, links[..m]))
      {
        var k := links[m];
        var netsKey;
        if k.instanceName == "" {
          netsKey := conn;
        } else {
          netsKey := conn + k.instanceName + k.pinName;
        }
        var d := CalculateNetDelay(spefNets, conn, k.instanceName);
        ghost var prev := ws + WireWrites(spefNets, conn, links[..m]);
        ghost var w := DelayWrite(WireKey(conn, k), NetDelay(SpefOf(spefNets, conn), conn, k.instanceName));
        assert netsKey == w.key;
        ApplyDelaysSnoc(base, prev, w);
        nets := nets[netsKey := NetOf(nets, netsKey).(delay := d)];
        assert links[..m + 1][..m] == links[..m];
        assert prev + [w] == ws + WireWrites(spefNets, conn, links[..m + 1]);
      }
      assert links[..|links|] == links;
    }
  }
}
