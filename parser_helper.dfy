/**
 * Record types shared by the parsers and the timing graph (parser_helper.h):
 * SPEF parasitics, cell-library pins and arcs, netlist pins and nets, and the
 * per-pin / per-net timing records, together with their constructor defaults,
 * the `findPinInfo` / `findTimingArchPin` search predicates and the printing
 * of a SPEF node name.
 *
 * C++ `double` is modelled as `real`; `std::string` as `string`.
 */
module ParserHelper {

  /** 2^1022, the scale of the smallest normalised double. */
  const TwoTo1022: real := 44942328371557897693232629769725618340449424473557664318357520289433168951375240783177119330601884005280028469967848339414697442203604155623211857659868531094441973356216371319075554900311523529863270738021251442209537670585615720368478277635206809290837627671146574559986811484619929076208839082406056034304.0

  /** `std::numeric_limits<double>::max()`: (2^53 - 1) * 2^971, that is (2 - 2^-52) * 2^1023. */
  const DblMax: real := 179769313486231570814527423731704356798070567525844996598917476803157260780028538760589558632766878171540458953514382464234321326889464182768467546703537516986049910576551282076245490090389328944075868508455133942304583236903222948165808559332123348274797826204144723168738177180919299881250404026184124858368.0

  /** `std::numeric_limits<double>::min()`: the smallest POSITIVE normalised double, 2^-1022. */
  const DblMin: real := 1.0 / TwoTo1022

  /**
   * The two seeds of a primary output's transition bounds: `min()` is a tiny
   * positive number, not minus infinity, and it lies strictly below `max()`.
   */
  lemma LimitsOrdered()
    ensures 0.0 < DblMin < 1.0 <= DblMax
  {
    assert DblMin * TwoTo1022 == 1.0;
  }

  // ---------------------------------------------------------------- SPEF

  /**
   * A SPEF node: a port (n1 = port, n2 = ""), a cell pin (n1 = cell, n2 = pin)
   * or an internal RC-tree node (n1 = net, n2 = index).
   */
  datatype SpefNodeName = SpefNodeName(n1: string, n2: string)

  datatype SpefConnection = SpefConnection(nodeType: char, nodeName: SpefNodeName, direction: char)

  datatype SpefCapacitance = SpefCapacitance(nodeName: SpefNodeName, capacitance: real)

  datatype SpefResistance = SpefResistance(fromNodeName: SpefNodeName, toNodeName: SpefNodeName, resistance: real)

  datatype SpefNet = SpefNet(
    netName: string,
    netLumpedCap: real,
    connections: seq<SpefConnection>,
    capacitances: seq<SpefCapacitance>,
    resistances: seq<SpefResistance>)
  {
    /** `SpefNet::clear`: the record with every field reset, i.e. the value-initialised net. */
    function Clear(): (r: SpefNet)
      ensures r == DefaultSpefNet()
    {
      DefaultSpefNet()
    }
  }

  /**
   * `SpefNet` has no constructor, so `SpefNets[name]` on an absent name
   * value-initialises it: empty name, zero lumped capacitance, no entries.
   */
  function DefaultSpefNet(): (s: SpefNet)
    ensures s.netName == "" && s.netLumpedCap == 0.0
    ensures s.connections == [] && s.capacitances == [] && s.resistances == []
  {
    SpefNet("", 0.0, [], [], [])
  }

  /** `operator<<(ostream&, const SpefNodeName&)`: n1, then ":" only when n2 is non-empty, then n2. */
  function NodeNameText(n: SpefNodeName): (s: string)
    ensures |s| == |n.n1| + (if n.n2 == "" then 0 else 1 + |n.n2|)
  {
    n.n1 + (if n.n2 != "" then ":" else "") + n.n2
  }

  /** Reading a printed node name back: split at the first ':'. */
  function ParseNodeName(s: string): (n: SpefNodeName)
    ensures ':' !in n.n1
    ensures if ':' in s then s == n.n1 + ":" + n.n2 else n == SpefNodeName(s, "")
  {
    if ':' !in s then SpefNodeName(s, "")
    else
      var i := FirstIndexOf(s, ':');
      SpefNodeName(s[..i], s[i + 1..])
  }

  function FirstIndexOf(s: string, c: char): (i: nat)
    requires c in s
    ensures i < |s| && s[i] == c && c !in s[..i]
  {
    if s[0] == c then 0 else 1 + FirstIndexOf(s[1..], c)
  }

  /**
   * Printing is lossless as long as the first part holds no ':' (true of
   * port, cell and net names): the printed text reads back as the same node.
   */
  lemma {:induction false} NodeNameRoundTrip(n: SpefNodeName)
    requires ':' !in n.n1
    ensures ParseNodeName(NodeNameText(n)) == n
  {
    var s := NodeNameText(n);
    if n.n2 == "" {
      assert s == n.n1;
    } else {
      assert s == n.n1 + ":" + n.n2;
      assert s[|n.n1|] == ':';
      assert s[..|n.n1|] == n.n1;
      var i := FirstIndexOf(s, ':');
      assert forall j :: 0 <= j < |n.n1| ==> s[j] == n.n1[j];
      assert i >= |n.n1|;
      assert i == |n.n1|;
      assert s[i + 1..] == n.n2;
    }
  }

  // ---------------------------------------------------------------- library

  /**
   * A lookup table indexed by output load and input transition. It is only
   * carried along here: no delay is interpolated from it.
   */
  datatype LibParserLUT = LibParserLUT(loadIndices: seq<real>, transitionIndices: seq<real>, tableVals: seq<seq<real>>)

  /** A timing arc; `timingSense` is "non_unate", "negative_unate" or "positive_unate". */
  datatype LibParserTimingInfo = LibParserTimingInfo(
    fromPin: string,
    toPin: string,
    timingSense: string,
    fallDelay: LibParserLUT,
    riseDelay: LibParserLUT,
    fallTransition: LibParserLUT,
    riseTransition: LibParserLUT)

  datatype LibParserPinInfo = LibParserPinInfo(
    name: string,
    capacitance: real,
    maxCapacitance: real,
    isInput: bool,
    isClock: bool)

  datatype LibParserCellInfo = LibParserCellInfo(
    name: string,
    footprint: string,
    leakagePower: real,
    area: real,
    isSequential: bool,
    dontTouch: bool,
    pins: seq<LibParserPinInfo>,
    timingArcs: seq<LibParserTimingInfo>)

  /**
   * `LibParserPinInfo()`: an input, non-clock pin with no input capacitance
   * that may drive any load up to the largest double.
   */
  function DefaultLibPin(): (p: LibParserPinInfo)
    ensures p.capacitance == 0.0 && p.maxCapacitance == DblMax
    ensures p.isInput && !p.isClock
  {
    LibParserPinInfo("", 0.0, DblMax, true, false)
  }

  /**
   * `LibParserCellInfo()`, also what `Cells[type]` yields for an unknown type:
   * a combinational, sizable cell with no pins and no timing arcs.
   */
  function DefaultCell(): (c: LibParserCellInfo)
    ensures c.leakagePower == 0.0 && c.area == 0.0
    ensures !c.isSequential && !c.dontTouch
    ensures c.pins == [] && c.timingArcs == []
  {
    LibParserCellInfo("", "", 0.0, 0.0, false, false, [], [])
  }

  /** The `findPinInfo(name)` functor: accepts a library pin exactly when its name is `name`. */
  predicate FindPinInfo(name: string, m: LibParserPinInfo)
  {
    m.name == name
  }

  /** The `findTimingArchPin(name)` functor: accepts an arc exactly when it starts at pin `name`. */
  predicate FindTimingArchPin(name: string, m: LibParserTimingInfo)
  {
    m.fromPin == name
  }

  /** `std::find_if`: the index of the first element satisfying `p`, or `|s|` (the end iterator). */
  function FindIf<T>(s: seq<T>, p: T -> bool): (r: nat)
    ensures r <= |s|
    ensures forall j :: 0 <= j < r ==> !p(s[j])
    ensures r < |s| ==> p(s[r])
  {
    if s == [] then 0
    else if p(s[0]) then 0
    else 1 + FindIf(s[1..], p)
  }

  /** `find_if(pins, findPinInfo(name))`: the first pin named `name`, or the end. */
  function FindPin(pins: seq<LibParserPinInfo>, name: string): (r: nat)
    ensures r <= |pins|
    ensures r < |pins| <==> exists i :: 0 <= i < |pins| && pins[i].name == name
    ensures r < |pins| ==> pins[r].name == name
    ensures forall j :: 0 <= j < r ==> pins[j].name != name
  {
    FindIf(pins, (m: LibParserPinInfo) => FindPinInfo(name, m))
  }

  /** `find_if(arcs, findTimingArchPin(name))`: the first arc leaving pin `name`, or the end. */
  function FindTimingArc(arcs: seq<LibParserTimingInfo>, name: string): (r: nat)
    ensures r <= |arcs|
    ensures r < |arcs| <==> exists i :: 0 <= i < |arcs| && arcs[i].fromPin == name
    ensures r < |arcs| ==> arcs[r].fromPin == name
    ensures forall j :: 0 <= j < r ==> arcs[j].fromPin != name
  {
    FindIf(arcs, (m: LibParserTimingInfo) => FindTimingArchPin(name, m))
  }

  // ---------------------------------------------------------------- netlist and timing records

  /** A pin reference on a net; a primary input/output boundary has an empty instance name. */
  datatype NetPin = NetPin(instanceName: string, pinName: string, cellType: string)

  /** `NetPin()` value-initialised: all three names empty. */
  function DefaultNetPin(): (p: NetPin)
    ensures p.instanceName == "" && p.pinName == "" && p.cellType == ""
  {
    NetPin("", "", "")
  }

  datatype PoValues = PoValues(
    earlyRiseRat: real,
    earlyFallRat: real,
    lateRiseRat: real,
    lateFallRat: real,
    trREarly: real,
    trFEarly: real,
    trRLate: real,
    trFLate: real,
    linkedBy: NetPin)

  /**
   * `po_values()`: required arrival times zero, no driver. The constructor
   * leaves the transition fields uninitialised; the model reads them as 0.0.
   */
  function DefaultPo(): (p: PoValues)
    ensures p.earlyRiseRat == 0.0 && p.earlyFallRat == 0.0
    ensures p.lateRiseRat == 0.0 && p.lateFallRat == 0.0
    ensures p.linkedBy == DefaultNetPin()
  {
    PoValues(0.0, 0.0, 0.0, 0.0, 0.0, 0.0, 0.0, 0.0, DefaultNetPin())
  }

  datatype PiValues = PiValues(
    earlyRiseAt: real,
    earlyFallAt: real,
    lateRiseAt: real,
    lateFallAt: real,
    trREarly: real,
    trFEarly: real,
    trRLate: real,
    trFLate: real,
    linksTo: seq<NetPin>,
    linkedBy: NetPin)

  /** `pi_values()`: every arrival time and transition zero, no receivers. */
  function DefaultPi(): (p: PiValues)
    ensures p.earlyRiseAt == 0.0 && p.earlyFallAt == 0.0 && p.lateRiseAt == 0.0 && p.lateFallAt == 0.0
    ensures p.trREarly == 0.0 && p.trFEarly == 0.0 && p.trRLate == 0.0 && p.trFLate == 0.0
    ensures p.linksTo == []
  {
    PiValues(0.0, 0.0, 0.0, 0.0, 0.0, 0.0, 0.0, 0.0, [], DefaultNetPin())
  }

  /** One net of the netlist: its single driver `output` and its receivers `inputs`. */
  datatype NetParserInfo = NetParserInfo(
    name: string,
    isPrimaryIn: bool,
    isPrimaryOut: bool,
    output: NetPin,
    inputs: seq<NetPin>)

  /** `NetParserInfo()`: an internal net (neither primary input nor output) with no pins. */
  function DefaultNetParserInfo(): (n: NetParserInfo)
    ensures !n.isPrimaryIn && !n.isPrimaryOut
    ensures n.inputs == []
  {
    NetParserInfo("", false, false, DefaultNetPin(), [])
  }

  /** A pin of a cell instance in the graph, with fan-out `linksTo` and fan-in `linkedBy`. */
  datatype VerParserPinInfo = VerParserPinInfo(
    atEarly: real,
    atLate: real,
    ratEarly: real,
    ratLate: real,
    trREarly: real,
    trFEarly: real,
    trRLate: real,
    trFLate: real,
    isInput: bool,
    connNetName: string,
    linksTo: seq<NetPin>,
    linkedBy: seq<NetPin>)

  /**
   * `VerParserPinInfo()`, also what `Pins[key]` yields for an absent key: not
   * an input, zero arrival and required times, no connections. The
   * constructor leaves the transition fields uninitialised; the model reads
   * them as 0.0.
   */
  function DefaultPinInfo(): (p: VerParserPinInfo)
    ensures p.atEarly == 0.0 && p.atLate == 0.0 && p.ratEarly == 0.0 && p.ratLate == 0.0
    ensures !p.isInput
    ensures p.linksTo == [] && p.linkedBy == []
  {
    VerParserPinInfo(0.0, 0.0, 0.0, 0.0, 0.0, 0.0, 0.0, 0.0, false, "", [], [])
  }

  /** One driver-to-receiver branch of a net. */
  datatype NetsInfo = NetsInfo(
    netName: string,
    fromPin: NetPin,
    toPin: NetPin,
    delay: real,
    drEarly: real,
    dfEarly: real,
    drLate: real,
    dfLate: real)

  /**
   * `NetsInfo()`, also what `Nets[key]` yields for an absent key: zero delay
   * between two empty pins. The constructor leaves the four directional
   * delays uninitialised; the model reads them as 0.0.
   */
  function DefaultNetsInfo(): (n: NetsInfo)
    ensures n.delay == 0.0
    ensures n.fromPin == DefaultNetPin() && n.toPin == DefaultNetPin()
  {
    NetsInfo("", DefaultNetPin(), DefaultNetPin(), 0.0, 0.0, 0.0, 0.0, 0.0)
  }
  // ---------------------------------------------------------------- the global tables

  /*
   * The tables `Cells`, `Pins`, `PIs`, `POs`, `Nets` and `SpefNets` are
   * `unordered_map`s whose `operator[]` inserts a value-initialised record on
   * a missing key. Reading through `operator[]` therefore sees the default
   * record; writing through it updates that default and stores it.
   */

  function CellOf(cells: map<string, LibParserCellInfo>, cellType: string): LibParserCellInfo
  {
    if cellType in cells then cells[cellType] else DefaultCell()
  }

  function PinOf(pins: map<string, VerParserPinInfo>, key: string): VerParserPinInfo
  {
    if key in pins then pins[key] else DefaultPinInfo()
  }

  function PiOf(pis: map<string, PiValues>, net: string): PiValues
  {
    if net in pis then pis[net] else DefaultPi()
  }

  function PoOf(pos: map<string, PoValues>, net: string): PoValues
  {
    if net in pos then pos[net] else DefaultPo()
  }

  function NetOf(nets: map<string, NetsInfo>, key: string): NetsInfo
  {
    if key in nets then nets[key] else DefaultNetsInfo()
  }

  function SpefOf(spefNets: map<string, SpefNet>, net: string): SpefNet
  {
    if net in spefNets then spefNets[net] else DefaultSpefNet()
  }
}
