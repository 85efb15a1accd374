/**
 * The two accumulator loops of graph.cpp: `calculate_net_delay`, a lumped RC
 * wire delay folded over a SPEF net's resistance and capacitance lists, and
 * `calculate_fanout`, the sum of the library input capacitances a pin drives.
 * Each is specified by a recursive function over the prefix already folded
 * and implemented by the loop the source has.
 */
module Delay {
  import opened ParserHelper

  datatype Option<T> = None | Some(value: T)

  // ---------------------------------------------------------------- calculate_net_delay

  /** A resistance entry counts when its target node's first part is the net or the receiving instance. */
  predicate Matches(r: SpefResistance, netName: string, instanceName: string)
  {
    r.toNodeName.n1 == netName || r.toNodeName.n1 == instanceName
  }

  /** The node comparison of the capacitance search: both parts equal. */
  predicate SameNode(a: SpefNodeName, b: SpefNodeName)
  {
    a.n1 == b.n1 && a.n2 == b.n2
  }

  /** The capacitance of the first entry on `node` (the search stops at the first hit), if any. */
  function FindCap(caps: seq<SpefCapacitance>, node: SpefNodeName): Option<real>
  {
    var j := FindIf(caps, (c: SpefCapacitance) => SameNode(c.nodeName, node));
    if j < |caps| then Some(caps[j].capacitance) else None
  }

  /**
   * The capacitance search finds nothing exactly when no entry is on the node,
   * and otherwise the capacitance of the FIRST entry on it.
   */
  lemma FindCapFirst(caps: seq<SpefCapacitance>, node: SpefNodeName)
    ensures FindCap(caps, node).None? <==> forall k :: 0 <= k < |caps| ==> !SameNode(caps[k].nodeName, node)
    ensures FindCap(caps, node).Some? ==>
              exists j :: 0 <= j < |caps| && SameNode(caps[j].nodeName, node) && FindCap(caps, node).value == caps[j].capacitance
                          && forall k :: 0 <= k < j ==> !SameNode(caps[k].nodeName, node)
  {
  }

  /** The resistance a matching entry adds to `total_cap`. */
  function Weight(r: SpefResistance, netName: string, instanceName: string): real
  {
    if Matches(r, netName, instanceName) then r.resistance else 0.0
  }

  /** The capacitance a matching entry multiplies into `total_res` (zero when it has none). */
  function CapOf(r: SpefResistance, caps: seq<SpefCapacitance>, netName: string, instanceName: string): real
  {
    if !Matches(r, netName, instanceName) then 0.0
    else match FindCap(caps, r.toNodeName)
      case Some(c) => c
      case None => 0.0
  }

  /** `total_cap` after folding `res`: the running sum of the matching resistances. */
  function MatchSum(res: seq<SpefResistance>, netName: string, instanceName: string): real
  {
    if res == [] then 0.0
    else MatchSum(res[..|res| - 1], netName, instanceName) + Weight(res[|res| - 1], netName, instanceName)
  }

  /**
   * `total_res` after folding `res`: each matching entry with a capacitance
   * entry on the same node adds the running `total_cap` times that capacitance.
   */
  function NetDelayOf(res: seq<SpefResistance>, caps: seq<SpefCapacitance>, netName: string, instanceName: string): real
  {
    if res == [] then 0.0
    else
      var prev := NetDelayOf(res[..|res| - 1], caps, netName, instanceName);
      var r := res[|res| - 1];
      if Matches(r, netName, instanceName) then
        match FindCap(caps, r.toNodeName)
        case Some(c) => prev + MatchSum(res, netName, instanceName) * c
        case None => prev
      else prev
  }

  /** What `calculate_net_delay(netName, instanceName)` returns for the net record `net`. */
  function NetDelay(net: SpefNet, netName: string, instanceName: string): real
  {
    NetDelayOf(net.resistances, net.capacitances, netName, instanceName)
  }

  /**
   * graph.cpp:351-373. The loop over the resistances with the inner search
   * over the capacitances that stops at the first entry on the same node.
   * A net missing from `SpefNets` reads as the empty record and gives 0.
   */
  method CalculateNetDelay(spefNets: map<string, SpefNet>, netName: string, instanceName: string) returns (totalRes: real)
    ensures totalRes == NetDelay(SpefOf(spefNets, netName), netName, instanceName)
    ensures SpefOf(spefNets, netName).resistances == [] ==> totalRes == 0.0
  {
    var net := SpefOf(spefNets, netName);
    var res, caps := net.resistances, net.capacitances;
    totalRes := 0.0;
    var totalCap := 0.0;
    for j := 0 to |res|
      invariant totalCap == MatchSum(res[..j], netName, instanceName)
      invariant totalRes == NetDelayOf(res[..j], caps, netName, instanceName)
    {
      var r := res[j];
      assert res[..j + 1][..j] == res[..j];
      if r.toNodeName.n1 == netName || r.toNodeName.n1 == instanceName {
        totalCap := totalCap + r.resistance;
        ghost var before := totalRes;
        var j2 := 0;
        while j2 < |caps|
          invariant 0 <= j2 <= |caps|
          invariant forall k :: 0 <= k < j2 ==> !SameNode(caps[k].nodeName, r.toNodeName)
          invariant totalRes == before
        {
          if caps[j2].nodeName.n1 == r.toNodeName.n1 && caps[j2].nodeName.n2 == r.toNodeName.n2 {
            totalRes := totalRes + totalCap * caps[j2].capacitance;
            assert FindIf(caps, (c: SpefCapacitance) => SameNode(c.nodeName, r.toNodeName)) == j2;
            break;
          }
          j2 := j2 + 1;
        }
      }
    }
    assert res[..|res|] == res;
  }

  /** No entry matches the net or the instance (in particular, no entries at all): the delay is 0. */
  lemma {:induction false} NetDelayUnmatched(res: seq<SpefResistance>, caps: seq<SpefCapacitance>, netName: string, instanceName: string)
    requires forall i :: 0 <= i < |res| ==> !Matches(res[i], netName, instanceName)
    ensures MatchSum(res, netName, instanceName) == 0.0
    ensures NetDelayOf(res, caps, netName, instanceName) == 0.0
  {
    if res != [] {
      NetDelayUnmatched(res[..|res| - 1], caps, netName, instanceName);
    }
  }

  /** The matching entries of `res`, in order. */
  function Matching(res: seq<SpefResistance>, netName: string, instanceName: string): (m: seq<SpefResistance>)
    ensures forall i :: 0 <= i < |m| ==> Matches(m[i], netName, instanceName)
    ensures |m| <= |res|
  {
    if res == [] then []
    else
      var r := res[|res| - 1];
      Matching(res[..|res| - 1], netName, instanceName) + (if Matches(r, netName, instanceName) then [r] else [])
  }

  /** Dropping the entries that do not match leaves `total_cap` as it was. */
  lemma {:induction false} MatchSumOnlyMatching(res: seq<SpefResistance>, netName: string, instanceName: string)
    ensures MatchSum(Matching(res, netName, instanceName), netName, instanceName) == MatchSum(res, netName, instanceName)
  {
    if res != [] {
      var init, r := res[..|res| - 1], res[|res| - 1];
      MatchSumOnlyMatching(init, netName, instanceName);
      var m := Matching(init, netName, instanceName);
      if Matches(r, netName, instanceName) {
        assert (m + [r])[..|m + [r]| - 1] == m;
      } else {
        assert Matching(res, netName, instanceName) == m;
      }
    }
  }

  /** Only the matching entries contribute: dropping the others leaves the delay as it was. */
  lemma {:induction false} NetDelayOnlyMatching(res: seq<SpefResistance>, caps: seq<SpefCapacitance>, netName: string, instanceName: string)
    ensures NetDelayOf(Matching(res, netName, instanceName), caps, netName, instanceName) == NetDelayOf(res, caps, netName, instanceName)
  {
    if res != [] {
      var init, r := res[..|res| - 1], res[|res| - 1];
      NetDelayOnlyMatching(init, caps, netName, instanceName);
      var m := Matching(init, netName, instanceName);
      if Matches(r, netName, instanceName) {
        var mr := m + [r];
        assert mr[..|mr| - 1] == m && mr[|mr| - 1] == r;
        MatchSumOnlyMatching(res, netName, instanceName);
        assert MatchSum(mr, netName, instanceName) == MatchSum(res, netName, instanceName);
      } else {
        assert Matching(res, netName, instanceName) == m;
      }
    }
  }

  /** With non-negative resistances and capacitances the wire delay is non-negative. */
  lemma {:induction false} NetDelayNonNegative(res: seq<SpefResistance>, caps: seq<SpefCapacitance>, netName: string, instanceName: string)
    requires forall i :: 0 <= i < |res| ==> res[i].resistance >= 0.0
    requires forall k :: 0 <= k < |caps| ==> caps[k].capacitance >= 0.0
    ensures MatchSum(res, netName, instanceName) >= 0.0
    ensures NetDelayOf(res, caps, netName, instanceName) >= 0.0
  {
    if res != [] {
      NetDelayNonNegative(res[..|res| - 1], caps, netName, instanceName);
      var s := MatchSum(res, netName, instanceName);
      FindCapFirst(caps, res[|res| - 1].toNodeName);
      match FindCap(caps, res[|res| - 1].toNodeName)
      case Some(c) =>
        assert c >= 0.0;
        assert s * c >= 0.0;
      case None =>
    }
  }

  // ---------------------------------------------------------------- calculate_fanout

  /**
   * `find_if(Cells[t].pins, findPinInfo(p))` is dereferenced without an end
   * check, so every fan-out entry that has a cell type must name a pin its
   * cell has.
   */
  predicate PinsResolvable(cells: map<string, LibParserCellInfo>, links: seq<NetPin>)
  {
    forall i :: 0 <= i < |links| && links[i].cellType != "" ==>
      FindPin(CellOf(cells, links[i].cellType).pins, links[i].pinName) < |CellOf(cells, links[i].cellType).pins|
  }

  /** The library input capacitance of pin `pinName` of cell type `cellType` (its first declaration). */
  function PinCap(cells: map<string, LibParserCellInfo>, cellType: string, pinName: string): real
    requires FindPin(CellOf(cells, cellType).pins, pinName) < |CellOf(cells, cellType).pins|
  {
    var c := CellOf(cells, cellType);
    c.pins[FindPin(c.pins, pinName)].capacitance
  }

  /** The capacitance contributed by one fan-out entry: zero for a primary-output boundary (no cell type). */
  function LinkCap(cells: map<string, LibParserCellInfo>, p: NetPin): real
    requires p.cellType != "" ==> FindPin(CellOf(cells, p.cellType).pins, p.pinName) < |CellOf(cells, p.cellType).pins|
  {
    if p.cellType == "" then 0.0 else PinCap(cells, p.cellType, p.pinName)
  }

  /** `total_capacitance` after folding `links`. */
  function FanoutCap(cells: map<string, LibParserCellInfo>, links: seq<NetPin>): real
    requires PinsResolvable(cells, links)
  {
    if links == [] then 0.0
    else FanoutCap(cells, links[..|links| - 1]) + LinkCap(cells, links[|links| - 1])
  }

  /** graph.cpp:376-394. Sum the input capacitances of the fan-out of pin `nextPkey`. */
  method CalculateFanout(pins: map<string, VerParserPinInfo>, cells: map<string, LibParserCellInfo>, nextPkey: string)
    returns (totalCapacitance: real)
    requires PinsResolvable(cells, PinOf(pins, nextPkey).linksTo)
    ensures totalCapacitance == FanoutCap(cells, PinOf(pins, nextPkey).linksTo)
    ensures nextPkey !in pins ==> totalCapacitance == 0.0
  {
    var links := PinOf(pins, nextPkey).linksTo;
    totalCapacitance := 0.0;
    for j2 := 0 to |links|
      invariant totalCapacitance == FanoutCap(cells, links[..j2])
    {
      assert links[..j2 + 1][..j2] == links[..j2];
      if links[j2].cellType == "" {
        continue;
      }
      var cell := CellOf(cells, links[j2].cellType);
      var k := FindPin(cell.pins, links[j2].pinName);
      totalCapacitance := totalCapacitance + cell.pins[k].capacitance;
    }
    assert links[..|links|] == links;
  }

  /** The entries of `links` that carry a cell type, in order. */
  function WithCellType(links: seq<NetPin>): (w: seq<NetPin>)
    ensures forall i :: 0 <= i < |w| ==> w[i].cellType != "" && w[i] in links
  {
    if links == [] then []
    else
      var p := links[|links| - 1];
      WithCellType(links[..|links| - 1]) + (if p.cellType != "" then [p] else [])
  }

  /** The fan-out capacitance of a concatenation is the sum of the two parts. */
  lemma {:induction false} FanoutCapAppend(cells: map<string, LibParserCellInfo>, a: seq<NetPin>, b: seq<NetPin>)
    requires PinsResolvable(cells, a) && PinsResolvable(cells, b)
    ensures PinsResolvable(cells, a + b)
    ensures FanoutCap(cells, a + b) == FanoutCap(cells, a) + FanoutCap(cells, b)
  {
    assert forall i :: 0 <= i < |a + b| ==> (a + b)[i] == if i < |a| then a[i] else b[i - |a|];
    if b != [] {
      var init := b[..|b| - 1];
      assert PinsResolvable(cells, init);
      FanoutCapAppend(cells, a, init);
      assert (a + b)[..|a + b| - 1] == a + init;
    } else {
      assert a + b == a;
    }
  }

  /**
   * Entries without a cell type (primary-output boundaries) are skipped: the
   * sum over the entries that have one is the same, and is 0 when none has one.
   */
  lemma {:induction false} FanoutCapSkipsBoundaries(cells: map<string, LibParserCellInfo>, links: seq<NetPin>)
    requires PinsResolvable(cells, links)
    ensures PinsResolvable(cells, WithCellType(links))
    ensures FanoutCap(cells, WithCellType(links)) == FanoutCap(cells, links)
    ensures WithCellType(links) == [] ==> FanoutCap(cells, links) == 0.0
  {
    if links != [] {
      var init, p := links[..|links| - 1], links[|links| - 1];
      assert PinsResolvable(cells, init);
      FanoutCapSkipsBoundaries(cells, init);
      var w := WithCellType(init);
      if p.cellType != "" {
        assert PinsResolvable(cells, [p]);
        FanoutCapAppend(cells, w, [p]);
        assert [p][..0] == [];
      } else {
        assert WithCellType(links) == w;
      }
    }
  }

  /** A driver feeding cells whose pins load 1.0 and 2.0, plus a primary output, sees 3.0. */
  lemma FanoutCapExample()
    ensures
      var inv := LibParserCellInfo("INV", "inv", 0.0, 0.0, false, false, [LibParserPinInfo("A", 1.0, DblMax, true, false)], []);
      var nand := LibParserCellInfo("NAND", "nand", 0.0, 0.0, false, false,
                                    [LibParserPinInfo("A", 0.5, DblMax, true, false), LibParserPinInfo("B", 2.0, DblMax, true, false)], []);
      var cells := map["INV" := inv, "NAND" := nand];
      var links := [NetPin("U1", "A", "INV"), NetPin("U2", "B", "NAND"), NetPin("", "OUT", "")];
      PinsResolvable(cells, links) && FanoutCap(cells, links) == 3.0
  {
    var inv := LibParserCellInfo("INV", "inv", 0.0, 0.0, false, false, [LibParserPinInfo("A", 1.0, DblMax, true, false)], []);
    var nand := LibParserCellInfo("NAND", "nand", 0.0, 0.0, false, false,
                                  [LibParserPinInfo("A", 0.5, DblMax, true, false), LibParserPinInfo("B", 2.0, DblMax, true, false)], []);
    var cells := map["INV" := inv, "NAND" := nand];
    var links := [NetPin("U1", "A", "INV"), NetPin("U2", "B", "NAND"), NetPin("", "OUT", "")];
    assert FindPin(inv.pins, "A") == 0;
    assert nand.pins[1].name == "B" && nand.pins[0].name != "B";
    assert FindPin(nand.pins, "B") == 1;
    assert links[..2][..1] == links[..1];
    assert links[..1][..0] == [];
    assert FanoutCap(cells, links[..1]) == 1.0;
    assert FanoutCap(cells, links[..2]) == 3.0;
  }
}
