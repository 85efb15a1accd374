/**
 * What `create_graph` (graph.cpp:21-106) does to the tables `Pins`, `PIs`,
 * `POs` and `Nets`, written as functions of the tables before the pass.
 * Each branch of the per-net body is one function; a loop over the
 * receivers is a fold over the receiver list, from the back, so that the
 * loops of `TimingGraph.CreateGraph` can keep "the tables equal the fold of
 * the prefix done so far" as their invariant.
 */
module GraphBuild {
  import opened ParserHelper

  /** The `Pins` key of a pin reference: instance name followed by pin name, with no separator. */
  function Key(p: NetPin): string
  {
    p.instanceName + p.pinName
  }

  /** The pin standing for a primary input or output `net`: no instance, the net name as pin name. */
  function Synthetic(net: string): NetPin
  {
    NetPin("", net, "")
  }

  predicate NoDup<T(==)>(s: seq<T>)
  {
    forall i, j :: 0 <= i < j < |s| ==> s[i] != s[j]
  }

  /** No two receivers share a `Pins` key. */
  predicate KeysDistinct(rs: seq<NetPin>)
  {
    forall i, j :: 0 <= i < j < |rs| ==> Key(rs[i]) != Key(rs[j])
  }

  /** How many receivers of `rs` have `Pins` key `k`. */
  function CountKey(rs: seq<NetPin>, k: string): nat
  {
    if rs == [] then 0
    else CountKey(rs[..|rs| - 1], k) + (if Key(rs[|rs| - 1]) == k then 1 else 0)
  }

  /** `n` copies of `p`. */
  function Repeat(p: NetPin, n: nat): (s: seq<NetPin>)
    ensures |s| == n
    ensures forall i :: 0 <= i < n ==> s[i] == p
  {
    if n == 0 then [] else Repeat(p, n - 1) + [p]
  }

  /** The four tables `create_graph` writes. */
  datatype GraphState = GraphState(
    pins: map<string, VerParserPinInfo>,
    pis: map<string, PiValues>,
    pos: map<string, PoValues>,
    nets: map<string, NetsInfo>)

  // ---------------------------------------------------------------- the receiver loops

  /** `Nets[net + inst + pin].toPin = r; .netName = net` for each receiver `r`, in order. */
  function ToPinWrites(nets: map<string, NetsInfo>, net: string, rs: seq<NetPin>): map<string, NetsInfo>
  {
    if rs == [] then nets
    else
      var n := ToPinWrites(nets, net, rs[..|rs| - 1]);
      var r := rs[|rs| - 1];
      n[net + Key(r) := NetOf(n, net + Key(r)).(toPin := r, netName := net)]
  }

  /** `Nets[net + inst + pin].fromPin = from; .netName = net` for each receiver, in order. */
  function FromPinWrites(nets: map<string, NetsInfo>, net: string, rs: seq<NetPin>, from: NetPin): map<string, NetsInfo>
  {
    if rs == [] then nets
    else
      var n := FromPinWrites(nets, net, rs[..|rs| - 1], from);
      var r := rs[|rs| - 1];
      n[net + Key(r) := NetOf(n, net + Key(r)).(fromPin := from, netName := net)]
  }

  /** `Pins[inst + pin].linkedBy.push_back(p)` for each receiver, in order. */
  function AppendLinkedBy(pins: map<string, VerParserPinInfo>, rs: seq<NetPin>, p: NetPin): map<string, VerParserPinInfo>
  {
    if rs == [] then pins
    else
      var m := AppendLinkedBy(pins, rs[..|rs| - 1], p);
      var k := Key(rs[|rs| - 1]);
      m[k := PinOf(m, k).(linkedBy := PinOf(m, k).linkedBy + [p])]
  }

  /** The `Nets` keys the receiver loops of net `net` write. */
  function NetKeys(net: string, rs: seq<NetPin>): set<string>
  {
    set r | r in rs :: net + Key(r)
  }

  // ---------------------------------------------------------------- the four branches of one net

  /** graph.cpp:33-50: a primary output gets its `POs` record, a synthetic fan-out pin and its `Nets` entry. */
  function PrimaryOutputStep(g: GraphState, net: string, ni: NetParserInfo): GraphState
  {
    var key := Key(ni.output);
    var po := PoOf(g.pos, net).(linkedBy := ni.output, trREarly := DblMax, trFEarly := DblMax, trRLate := DblMin, trFLate := DblMin);
    var drv := PinOf(g.pins, key);
    g.(pos := g.pos[net := po],
       pins := g.pins[key := drv.(linksTo := drv.linksTo + [Synthetic(net)])],
       nets := g.nets[net := NetOf(g.nets, net).(netName := net, fromPin := Synthetic(net))])
  }

  /** graph.cpp:54-69: a primary input records its receivers and becomes their fan-in. */
  function PrimaryInputStep(g: GraphState, net: string, ni: NetParserInfo): GraphState
  {
    g.(pis := g.pis[net := PiOf(g.pis, net).(linksTo := ni.inputs)],
       nets := ToPinWrites(g.nets, net, ni.inputs),
       pins := AppendLinkedBy(g.pins, ni.inputs, Synthetic(net)))
  }

  /** graph.cpp:73-81: a driver with a non-empty key gains every receiver as fan-out. */
  function DriverStep(g: GraphState, net: string, ni: NetParserInfo): GraphState
  {
    var key := Key(ni.output);
    if key == "" then g
    else
      var drv := PinOf(g.pins, key);
      g.(pins := g.pins[key := drv.(linksTo := drv.linksTo + ni.inputs)],
         nets := ToPinWrites(g.nets, net, ni.inputs))
  }

  /** graph.cpp:87-98: on an internal net each receiver gains the driver as fan-in. */
  function InternalStep(g: GraphState, net: string, ni: NetParserInfo): GraphState
  {
    if ni.isPrimaryIn || ni.isPrimaryOut then g
    else
      g.(pins := AppendLinkedBy(g.pins, ni.inputs, ni.output),
         nets := FromPinWrites(g.nets, net, ni.inputs, ni.output))
  }

  /** The body of the loop of `create_graph` for net `net` with record `ni`. */
  function RecordStep(g: GraphState, net: string, ni: NetParserInfo): GraphState
  {
    var g1 := if ni.isPrimaryOut then PrimaryOutputStep(g, net, ni) else g;
    var g2 := if ni.isPrimaryIn then PrimaryInputStep(g1, net, ni) else g1;
    InternalStep(DriverStep(g2, net, ni), net, ni)
  }

  /** The tables after `create_graph` has visited the nets of `order`, in that order. */
  function Build(g: GraphState, helper: map<string, NetParserInfo>, order: seq<string>): GraphState
    requires forall i :: 0 <= i < |order| ==> order[i] in helper
  {
    if order == [] then g
    else
      var net := order[|order| - 1];
      RecordStep(Build(g, helper, order[..|order| - 1]), net, helper[net])
  }

  // ---------------------------------------------------------------- the receiver loops, proved

  lemma ConcatCancel(net: string, a: string, b: string)
    requires net + a == net + b
    ensures a == b
  {
    assert a == (net + a)[|net|..];
    assert b == (net + b)[|net|..];
  }

  lemma NetKeysSnoc(net: string, rs: seq<NetPin>)
    requires rs != []
    ensures NetKeys(net, rs) == NetKeys(net, rs[..|rs| - 1]) + {net + Key(rs[|rs| - 1])}
  {
    assert forall r :: r in rs <==> r in rs[..|rs| - 1] || r == rs[|rs| - 1] by {
      assert rs == rs[..|rs| - 1] + [rs[|rs| - 1]];
    }
  }

  /**
   * The `toPin` loop touches only the receivers' `Nets` keys, names the net on
   * each of them, and leaves `fromPin` and `delay` as they were.
   */
  lemma {:induction false} ToPinWritesFrame(nets: map<string, NetsInfo>, net: string, rs: seq<NetPin>)
    ensures forall k :: k !in NetKeys(net, rs) ==> (k in ToPinWrites(nets, net, rs) <==> k in nets)
    ensures forall k :: k !in NetKeys(net, rs) ==> NetOf(ToPinWrites(nets, net, rs), k) == NetOf(nets, k)
    ensures forall k :: k in NetKeys(net, rs) ==> k in ToPinWrites(nets, net, rs) && NetOf(ToPinWrites(nets, net, rs), k).netName == net
  {
    if rs != [] {
      var init := rs[..|rs| - 1];
      ToPinWritesFrame(nets, net, init);
      NetKeysSnoc(net, rs);
    }
  }

  /** The `toPin` loop leaves `fromPin` and `delay` of every entry as they were. */
  lemma {:induction false} ToPinWritesKeeps(nets: map<string, NetsInfo>, net: string, rs: seq<NetPin>)
    ensures forall k :: NetOf(ToPinWrites(nets, net, rs), k).fromPin == NetOf(nets, k).fromPin
    ensures forall k :: NetOf(ToPinWrites(nets, net, rs), k).delay == NetOf(nets, k).delay
  {
    if rs != [] {
      ToPinWritesKeeps(nets, net, rs[..|rs| - 1]);
    }
  }

  /** With distinct receiver keys, every receiver's `Nets` entry ends with `toPin` equal to that receiver. */
  lemma {:induction false} ToPinWritesDistinct(nets: map<string, NetsInfo>, net: string, rs: seq<NetPin>)
    requires KeysDistinct(rs)
    ensures forall i :: 0 <= i < |rs| ==> NetOf(ToPinWrites(nets, net, rs), net + Key(rs[i])).toPin == rs[i]
  {
    if rs != [] {
      var init, last := rs[..|rs| - 1], rs[|rs| - 1];
      ToPinWritesDistinct(nets, net, init);
      forall i | 0 <= i < |init|
        ensures net + Key(rs[i]) != net + Key(last)
      {
        if net + Key(rs[i]) == net + Key(last) {
          ConcatCancel(net, Key(rs[i]), Key(last));
        }
      }
    }
  }

  /** The `fromPin` loop touches only the receivers' `Nets` keys, sets `fromPin` on each and keeps `toPin` and `delay`. */
  lemma {:induction false} FromPinWritesFrame(nets: map<string, NetsInfo>, net: string, rs: seq<NetPin>, from: NetPin)
    ensures forall k :: k !in NetKeys(net, rs) ==> (k in FromPinWrites(nets, net, rs, from) <==> k in nets)
    ensures forall k :: k !in NetKeys(net, rs) ==> NetOf(FromPinWrites(nets, net, rs, from), k) == NetOf(nets, k)
    ensures forall k :: k in NetKeys(net, rs) ==>
              k in FromPinWrites(nets, net, rs, from)
              && NetOf(FromPinWrites(nets, net, rs, from), k) == NetOf(nets, k).(fromPin := from, netName := net)
  {
    if rs != [] {
      var init := rs[..|rs| - 1];
      FromPinWritesFrame(nets, net, init, from);
      NetKeysSnoc(net, rs);
    }
  }

  /** The `linkedBy` loop appends `p` to the fan-in of every receiver key once per receiver with that key. */
  lemma {:induction false} AppendLinkedByCount(pins: map<string, VerParserPinInfo>, rs: seq<NetPin>, p: NetPin)
    ensures forall k :: PinOf(AppendLinkedBy(pins, rs, p), k).linkedBy == PinOf(pins, k).linkedBy + Repeat(p, CountKey(rs, k))
  {
    if rs != [] {
      var init := rs[..|rs| - 1];
      AppendLinkedByCount(pins, init, p);
      forall k
        ensures PinOf(AppendLinkedBy(pins, rs, p), k).linkedBy == PinOf(pins, k).linkedBy + Repeat(p, CountKey(rs, k))
      {
        if Key(rs[|rs| - 1]) == k {
          assert Repeat(p, CountKey(rs, k)) == Repeat(p, CountKey(init, k)) + [p];
        }
      }
    }
  }

  /** The `linkedBy` loop changes no other field of any pin and adds exactly the receiver keys. */
  lemma {:induction false} AppendLinkedByKeeps(pins: map<string, VerParserPinInfo>, rs: seq<NetPin>, p: NetPin)
    ensures forall k :: PinOf(AppendLinkedBy(pins, rs, p), k).(linkedBy := PinOf(pins, k).linkedBy) == PinOf(pins, k)
    ensures forall k :: k in AppendLinkedBy(pins, rs, p) <==> k in pins || CountKey(rs, k) > 0
  {
    if rs != [] {
      AppendLinkedByKeeps(pins, rs[..|rs| - 1], p);
    }
  }

  /**
   * The `linkedBy` loop appends `p` to the fan-in of every receiver key once
   * per receiver with that key, and changes nothing else in any pin.
   */
  lemma AppendLinkedByEffect(pins: map<string, VerParserPinInfo>, rs: seq<NetPin>, p: NetPin)
    ensures forall k :: PinOf(AppendLinkedBy(pins, rs, p), k).linkedBy == PinOf(pins, k).linkedBy + Repeat(p, CountKey(rs, k))
    ensures forall k :: PinOf(AppendLinkedBy(pins, rs, p), k).(linkedBy := PinOf(pins, k).linkedBy) == PinOf(pins, k)
    ensures forall k :: k in AppendLinkedBy(pins, rs, p) <==> k in pins || CountKey(rs, k) > 0
  {
    AppendLinkedByCount(pins, rs, p);
    AppendLinkedByKeeps(pins, rs, p);
  }

  // ---------------------------------------------------------------- one net, proved

  /**
   * A primary-output net gets its `POs` record: the driver as `linkedBy`, the
   * early transition bounds at `max()` and the late ones at `min()`; and a
   * `Nets` entry under the bare net name starting at the synthetic output pin.
   * Any other net leaves `POs` alone.
   */
  lemma PrimaryOutputRecord(g: GraphState, net: string, ni: NetParserInfo)
    ensures ni.isPrimaryOut ==>
              RecordStep(g, net, ni).pos == g.pos[net := PoOf(g.pos, net).(linkedBy := ni.output, trREarly := DblMax, trFEarly := DblMax, trRLate := DblMin, trFLate := DblMin)]
    ensures ni.isPrimaryOut ==>
              net in RecordStep(g, net, ni).nets
              && NetOf(RecordStep(g, net, ni).nets, net).netName == net
              && NetOf(RecordStep(g, net, ni).nets, net).fromPin == Synthetic(net)
    ensures !ni.isPrimaryOut ==> RecordStep(g, net, ni).pos == g.pos
  {
    var g1 := if ni.isPrimaryOut then PrimaryOutputStep(g, net, ni) else g;
    var g2 := if ni.isPrimaryIn then PrimaryInputStep(g1, net, ni) else g1;
    ToPinWritesFrame(g1.nets, net, ni.inputs);
    ToPinWritesFrame(g2.nets, net, ni.inputs);
    ToPinWritesKeeps(g1.nets, net, ni.inputs);
    ToPinWritesKeeps(g2.nets, net, ni.inputs);
  }

  /**
   * A primary-input net's `PIs` record lists exactly its receivers; any other
   * net leaves `PIs` alone.
   */
  lemma PrimaryInputRecord(g: GraphState, net: string, ni: NetParserInfo)
    ensures ni.isPrimaryIn ==> RecordStep(g, net, ni).pis == g.pis[net := PiOf(g.pis, net).(linksTo := ni.inputs)]
    ensures !ni.isPrimaryIn ==> RecordStep(g, net, ni).pis == g.pis
  {
  }

  lemma PrimaryOutputStepPin(g: GraphState, net: string, ni: NetParserInfo, k: string)
    ensures PinOf(PrimaryOutputStep(g, net, ni).pins, k).linksTo
            == PinOf(g.pins, k).linksTo + (if k == Key(ni.output) then [Synthetic(net)] else [])
    ensures PinOf(PrimaryOutputStep(g, net, ni).pins, k).linkedBy == PinOf(g.pins, k).linkedBy
  {
  }

  lemma PrimaryInputStepPin(g: GraphState, net: string, ni: NetParserInfo, k: string)
    ensures PinOf(PrimaryInputStep(g, net, ni).pins, k).linksTo == PinOf(g.pins, k).linksTo
    ensures PinOf(PrimaryInputStep(g, net, ni).pins, k).linkedBy
            == PinOf(g.pins, k).linkedBy + Repeat(Synthetic(net), CountKey(ni.inputs, k))
  {
    AppendLinkedByEffect(g.pins, ni.inputs, Synthetic(net));
  }

  lemma DriverStepPin(g: GraphState, net: string, ni: NetParserInfo, k: string)
    ensures PinOf(DriverStep(g, net, ni).pins, k).linksTo
            == PinOf(g.pins, k).linksTo + (if k == Key(ni.output) && k != "" then ni.inputs else [])
    ensures PinOf(DriverStep(g, net, ni).pins, k).linkedBy == PinOf(g.pins, k).linkedBy
  {
  }

  lemma InternalStepPin(g: GraphState, net: string, ni: NetParserInfo, k: string)
    ensures PinOf(InternalStep(g, net, ni).pins, k).linksTo == PinOf(g.pins, k).linksTo
    ensures PinOf(InternalStep(g, net, ni).pins, k).linkedBy
            == PinOf(g.pins, k).linkedBy
               + (if !ni.isPrimaryIn && !ni.isPrimaryOut then Repeat(ni.output, CountKey(ni.inputs, k)) else [])
  {
    AppendLinkedByEffect(g.pins, ni.inputs, ni.output);
  }

  /** What one net does to the pin under key `k`: fan-out and fan-in grow at the end, nothing else changes. */
  lemma StepPin(g: GraphState, net: string, ni: NetParserInfo, k: string)
    ensures PinOf(RecordStep(g, net, ni).pins, k).linksTo
            == PinOf(g.pins, k).linksTo
               + (if ni.isPrimaryOut && k == Key(ni.output) then [Synthetic(net)] else [])
               + (if k == Key(ni.output) && k != "" then ni.inputs else [])
    ensures PinOf(RecordStep(g, net, ni).pins, k).linkedBy
            == PinOf(g.pins, k).linkedBy
               + (if ni.isPrimaryIn then Repeat(Synthetic(net), CountKey(ni.inputs, k))
                  else if !ni.isPrimaryOut then Repeat(ni.output, CountKey(ni.inputs, k))
                  else [])
  {
    var g1 := if ni.isPrimaryOut then PrimaryOutputStep(g, net, ni) else g;
    var g2 := if ni.isPrimaryIn then PrimaryInputStep(g1, net, ni) else g1;
    var g3 := DriverStep(g2, net, ni);
    PrimaryOutputStepPin(g, net, ni, k);
    PrimaryInputStepPin(g1, net, ni, k);
    DriverStepPin(g2, net, ni, k);
    InternalStepPin(g3, net, ni, k);
  }

  /**
   * The driver's fan-out grows by the synthetic output pin (primary outputs)
   * and then by every receiver in order (non-empty driver key); no other
   * pin's fan-out changes.
   */
  lemma DriverLinksTo(g: GraphState, net: string, ni: NetParserInfo)
    ensures PinOf(RecordStep(g, net, ni).pins, Key(ni.output)).linksTo
            == PinOf(g.pins, Key(ni.output)).linksTo
               + (if ni.isPrimaryOut then [Synthetic(net)] else [])
               + (if Key(ni.output) != "" then ni.inputs else [])
    ensures forall k :: k != Key(ni.output) ==> PinOf(RecordStep(g, net, ni).pins, k).linksTo == PinOf(g.pins, k).linksTo
  {
    StepPin(g, net, ni, Key(ni.output));
    forall k | k != Key(ni.output)
      ensures PinOf(RecordStep(g, net, ni).pins, k).linksTo == PinOf(g.pins, k).linksTo
    {
      StepPin(g, net, ni, k);
    }
  }

  /**
   * Fan-in: a primary input appends its synthetic pin to each receiver, an
   * internal net appends its driver, and a net that is only a primary output
   * leaves every `linkedBy` untouched. Each receiver key gains one entry per
   * receiver with that key, at the end.
   */
  lemma ReceiverLinkedBy(g: GraphState, net: string, ni: NetParserInfo)
    ensures forall k ::
              PinOf(RecordStep(g, net, ni).pins, k).linkedBy
              == PinOf(g.pins, k).linkedBy
                 + (if ni.isPrimaryIn then Repeat(Synthetic(net), CountKey(ni.inputs, k))
                    else if !ni.isPrimaryOut then Repeat(ni.output, CountKey(ni.inputs, k))
                    else [])
  {
    forall k
      ensures PinOf(RecordStep(g, net, ni).pins, k).linkedBy
              == PinOf(g.pins, k).linkedBy
                 + (if ni.isPrimaryIn then Repeat(Synthetic(net), CountKey(ni.inputs, k))
                    else if !ni.isPrimaryOut then Repeat(ni.output, CountKey(ni.inputs, k))
                    else [])
    {
      StepPin(g, net, ni, k);
    }
  }

  /**
   * Receiver branches in `Nets`: on a primary input, or on a net whose driver
   * key is non-empty, every receiver's entry `net + inst + pin` names the net
   * and (receiver keys distinct) points to that receiver. On an internal net
   * every receiver's entry starts at the driver.
   */
  lemma ReceiverNets(g: GraphState, net: string, ni: NetParserInfo)
    ensures (ni.isPrimaryIn || Key(ni.output) != "") ==>
              forall i :: 0 <= i < |ni.inputs| ==> NetOf(RecordStep(g, net, ni).nets, net + Key(ni.inputs[i])).netName == net
    ensures (ni.isPrimaryIn || Key(ni.output) != "") && KeysDistinct(ni.inputs) ==>
              forall i :: 0 <= i < |ni.inputs| ==> NetOf(RecordStep(g, net, ni).nets, net + Key(ni.inputs[i])).toPin == ni.inputs[i]
    ensures !ni.isPrimaryIn && !ni.isPrimaryOut ==>
              forall i :: 0 <= i < |ni.inputs| ==> NetOf(RecordStep(g, net, ni).nets, net + Key(ni.inputs[i])).fromPin == ni.output
  {
    var g1 := if ni.isPrimaryOut then PrimaryOutputStep(g, net, ni) else g;
    var g2 := if ni.isPrimaryIn then PrimaryInputStep(g1, net, ni) else g1;
    var g3 := DriverStep(g2, net, ni);
    assert forall i :: 0 <= i < |ni.inputs| ==> net + Key(ni.inputs[i]) in NetKeys(net, ni.inputs);
    ToPinWritesFrame(g1.nets, net, ni.inputs);
    ToPinWritesFrame(g2.nets, net, ni.inputs);
    ToPinWritesKeeps(g1.nets, net, ni.inputs);
    ToPinWritesKeeps(g2.nets, net, ni.inputs);
    FromPinWritesFrame(g3.nets, net, ni.inputs, ni.output);
    if KeysDistinct(ni.inputs) {
      ToPinWritesDistinct(g1.nets, net, ni.inputs);
      ToPinWritesDistinct(g2.nets, net, ni.inputs);
    }
  }

  // ---------------------------------------------------------------- the whole pass, proved

  /** The primary-input nets among the first `order` nets. */
  function PrimaryInputs(helper: map<string, NetParserInfo>, order: seq<string>): set<string>
    requires forall i :: 0 <= i < |order| ==> order[i] in helper
  {
    set i | 0 <= i < |order| && helper[order[i]].isPrimaryIn :: order[i]
  }

  /** The last net of a duplicate-free order is new to the set of the nets before it. */
  lemma PrimaryInputsSnoc(helper: map<string, NetParserInfo>, order: seq<string>)
    requires forall i :: 0 <= i < |order| ==> order[i] in helper
    requires NoDup(order) && order != []
    ensures PrimaryInputs(helper, order)
            == PrimaryInputs(helper, order[..|order| - 1]) + (if helper[order[|order| - 1]].isPrimaryIn then {order[|order| - 1]} else {})
    ensures order[|order| - 1] !in PrimaryInputs(helper, order[..|order| - 1])
  {
    var init, net := order[..|order| - 1], order[|order| - 1];
    forall x | x in PrimaryInputs(helper, order)
      ensures x in PrimaryInputs(helper, init) + (if helper[net].isPrimaryIn then {net} else {})
    {
      var i :| 0 <= i < |order| && helper[order[i]].isPrimaryIn && order[i] == x;
      if i < |init| {
        assert init[i] == x;
      }
    }
    forall x | x in PrimaryInputs(helper, init)
      ensures x in PrimaryInputs(helper, order)
    {
      var i :| 0 <= i < |init| && helper[init[i]].isPrimaryIn && init[i] == x;
      assert order[i] == x;
    }
    forall i | 0 <= i < |init|
      ensures init[i] != net
    {
      assert order[i] == init[i];
    }
  }

  /**
   * After the pass over every net once, `PIs` holds the primary-input nets
   * (beside what it held before) and each one's record lists exactly that
   * net's receivers; other entries are as before.
   */
  lemma {:induction false} BuildPrimaryInputs(g: GraphState, helper: map<string, NetParserInfo>, order: seq<string>)
    requires forall i :: 0 <= i < |order| ==> order[i] in helper
    requires NoDup(order)
    ensures Build(g, helper, order).pis.Keys == g.pis.Keys + PrimaryInputs(helper, order)
    ensures forall net :: net in PrimaryInputs(helper, order) ==> Build(g, helper, order).pis[net].linksTo == helper[net].inputs
    ensures forall net :: net !in PrimaryInputs(helper, order) && net in g.pis ==> Build(g, helper, order).pis[net] == g.pis[net]
  {
    if order != [] {
      var init, net := order[..|order| - 1], order[|order| - 1];
      BuildPrimaryInputs(g, helper, init);
      PrimaryInputRecord(Build(g, helper, init), net, helper[net]);
      PrimaryInputsSnoc(helper, order);
    }
  }

  /** The primary-output nets among the first `order` nets. */
  function PrimaryOutputs(helper: map<string, NetParserInfo>, order: seq<string>): set<string>
    requires forall i :: 0 <= i < |order| ==> order[i] in helper
  {
    set i | 0 <= i < |order| && helper[order[i]].isPrimaryOut :: order[i]
  }

  /** The last net of a duplicate-free order is new to the set of the nets before it. */
  lemma PrimaryOutputsSnoc(helper: map<string, NetParserInfo>, order: seq<string>)
    requires forall i :: 0 <= i < |order| ==> order[i] in helper
    requires NoDup(order) && order != []
    ensures PrimaryOutputs(helper, order)
            == PrimaryOutputs(helper, order[..|order| - 1]) + (if helper[order[|order| - 1]].isPrimaryOut then {order[|order| - 1]} else {})
    ensures order[|order| - 1] !in PrimaryOutputs(helper, order[..|order| - 1])
  {
    var init, net := order[..|order| - 1], order[|order| - 1];
    forall x | x in PrimaryOutputs(helper, order)
      ensures x in PrimaryOutputs(helper, init) + (if helper[net].isPrimaryOut then {net} else {})
    {
      var i :| 0 <= i < |order| && helper[order[i]].isPrimaryOut && order[i] == x;
      if i < |init| {
        assert init[i] == x;
      }
    }
    forall x | x in PrimaryOutputs(helper, init)
      ensures x in PrimaryOutputs(helper, order)
    {
      var i :| 0 <= i < |init| && helper[init[i]].isPrimaryOut && init[i] == x;
      assert order[i] == x;
    }
    forall i | 0 <= i < |init|
      ensures init[i] != net
    {
      assert order[i] == init[i];
    }
  }

  /**
   * After the pass over every net once, each primary-output net's `POs` record
   * has its driver as `linkedBy`, `max()` as early and `min()` as late
   * transition bounds, so each late seed is positive and below its early
   * seed; other entries are as before.
   */
  lemma {:induction false} BuildPrimaryOutputs(g: GraphState, helper: map<string, NetParserInfo>, order: seq<string>)
    requires forall i :: 0 <= i < |order| ==> order[i] in helper
    requires NoDup(order)
    ensures Build(g, helper, order).pos.Keys == g.pos.Keys + PrimaryOutputs(helper, order)
    ensures forall net :: net in PrimaryOutputs(helper, order) ==>
              var po := Build(g, helper, order).pos[net];
              po.linkedBy == helper[net].output
              && po.trREarly == DblMax && po.trFEarly == DblMax && po.trRLate == DblMin && po.trFLate == DblMin
    ensures forall net :: net in PrimaryOutputs(helper, order) ==>
              var po := Build(g, helper, order).pos[net];
              0.0 < po.trRLate < po.trREarly && 0.0 < po.trFLate < po.trFEarly
    ensures forall net :: net !in PrimaryOutputs(helper, order) && net in g.pos ==> Build(g, helper, order).pos[net] == g.pos[net]
  {
    LimitsOrdered();
    if order != [] {
      var init, net := order[..|order| - 1], order[|order| - 1];
      BuildPrimaryOutputs(g, helper, init);
      PrimaryOutputRecord(Build(g, helper, init), net, helper[net]);
      PrimaryOutputsSnoc(helper, order);
    }
  }

  /** Keys collide: `U1` pin `0A` and `U10` pin `A` share the `Pins` entry `U10A`. */
  lemma KeyCollision()
    ensures NetPin("U1", "0A", "INV") != NetPin("U10", "A", "INV")
    ensures Key(NetPin("U1", "0A", "INV")) == Key(NetPin("U10", "A", "INV"))
  {
    assert NetPin("U1", "0A", "INV").instanceName != NetPin("U10", "A", "INV").instanceName;
  }
}
