/**
 * An independent reading of the `calculate_net_delay` fold: the Elmore sum.
 * Writing w_i for the resistance an entry adds to `total_cap` and c_i for the
 * capacitance it multiplies in, the loop computes
 *   sum_i (w_0 + ... + w_i) * c_i
 * and the Elmore form of the same quantity is
 *   sum_i w_i * (c_i + ... + c_{n-1}),
 * each resistance times all the capacitance found at or after it.
 */
module ElmoreDelay {
  import opened ParserHelper
  import opened Delay

  /** The weights w_i of the entries of `res`. */
  function Weights(res: seq<SpefResistance>, netName: string, instanceName: string): (w: seq<real>)
    ensures |w| == |res|
    ensures forall i :: 0 <= i < |res| ==> w[i] == Weight(res[i], netName, instanceName)
  {
    if res == [] then []
    else Weights(res[..|res| - 1], netName, instanceName) + [Weight(res[|res| - 1], netName, instanceName)]
  }

  /** The capacitances c_i of the entries of `res`. */
  function Caps(res: seq<SpefResistance>, caps: seq<SpefCapacitance>, netName: string, instanceName: string): (c: seq<real>)
    ensures |c| == |res|
    ensures forall i :: 0 <= i < |res| ==> c[i] == CapOf(res[i], caps, netName, instanceName)
  {
    if res == [] then []
    else Caps(res[..|res| - 1], caps, netName, instanceName) + [CapOf(res[|res| - 1], caps, netName, instanceName)]
  }

  /** Sum from the back: the running total of a prefix. */
  function Total(w: seq<real>): real
  {
    if w == [] then 0.0 else Total(w[..|w| - 1]) + w[|w| - 1]
  }

  /** Sum from the front: what lies at or after the first position. */
  function Suffix(c: seq<real>): real
  {
    if c == [] then 0.0 else c[0] + Suffix(c[1..])
  }

  /** The loop's fold: each position adds the running total of weights times its capacitance. */
  function Fold(w: seq<real>, c: seq<real>): real
    requires |w| == |c|
  {
    if w == [] then 0.0
    else Fold(w[..|w| - 1], c[..|c| - 1]) + Total(w) * c[|c| - 1]
  }

  /** The Elmore sum: each weight times all the capacitance at or after it. */
  function Elmore(w: seq<real>, c: seq<real>): real
    requires |w| == |c|
  {
    if w == [] then 0.0
    else w[0] * Suffix(c) + Elmore(w[1..], c[1..])
  }

  lemma {:induction false} TotalPrepend(a: real, w: seq<real>)
    ensures Total([a] + w) == a + Total(w)
  {
    if w != [] {
      assert ([a] + w)[..|[a] + w| - 1] == [a] + w[..|w| - 1];
      TotalPrepend(a, w[..|w| - 1]);
    }
  }

  lemma {:induction false} SuffixAppend(c: seq<real>, x: real)
    ensures Suffix(c + [x]) == Suffix(c) + x
  {
    if c != [] {
      assert (c + [x])[1..] == c[1..] + [x];
      SuffixAppend(c[1..], x);
    }
  }

  /** w * (s + x) + e + m * x == w * s + e + (w + m) * x, over plain reals. */
  lemma Distribute(w: real, s: real, x: real, m: real, e: real)
    ensures w * (s + x) + (e + m * x) == (w * s + e) + (w + m) * x
  {
  }

  /** Appending one position to the Elmore form adds the full weight total times its capacitance. */
  lemma {:induction false} ElmoreAppend(w: seq<real>, c: seq<real>, v: real, x: real)
    requires |w| == |c|
    ensures Elmore(w + [v], c + [x]) == Elmore(w, c) + Total(w + [v]) * x
  {
    if w == [] {
      assert [v][1..] == [] && [x][1..] == [];
      assert [v][..0] == [];
    } else {
      var w', c' := w + [v], c + [x];
      assert w'[1..] == w[1..] + [v] && c'[1..] == c[1..] + [x];
      assert w' == [w[0]] + w'[1..];
      ElmoreAppend(w[1..], c[1..], v, x);
      SuffixAppend(c, x);
      TotalPrepend(w[0], w'[1..]);
      Distribute(w[0], Suffix(c), x, Total(w'[1..]), Elmore(w[1..], c[1..]));
    }
  }

  /** The fold and the Elmore sum agree on every pair of equally long sequences. */
  lemma {:induction false} FoldIsElmore(w: seq<real>, c: seq<real>)
    requires |w| == |c|
    ensures Fold(w, c) == Elmore(w, c)
  {
    if w != [] {
      var n := |w| - 1;
      FoldIsElmore(w[..n], c[..n]);
      ElmoreAppend(w[..n], c[..n], w[n], c[n]);
      assert w[..n] + [w[n]] == w && c[..n] + [c[n]] == c;
    }
  }

  /** `calculate_net_delay`'s fold is `Fold` over the entries' weights and capacitances. */
  lemma {:induction false} NetDelayIsFold(res: seq<SpefResistance>, caps: seq<SpefCapacitance>, netName: string, instanceName: string)
    ensures MatchSum(res, netName, instanceName) == Total(Weights(res, netName, instanceName))
    ensures NetDelayOf(res, caps, netName, instanceName) == Fold(Weights(res, netName, instanceName), Caps(res, caps, netName, instanceName))
  {
    if res != [] {
      var init := res[..|res| - 1];
      NetDelayIsFold(init, caps, netName, instanceName);
      var w, c := Weights(res, netName, instanceName), Caps(res, caps, netName, instanceName);
      assert w[..|w| - 1] == Weights(init, netName, instanceName);
      assert c[..|c| - 1] == Caps(init, caps, netName, instanceName);
    }
  }

  /**
   * The wire delay is the Elmore sum: every matching resistance is multiplied
   * by all the matching capacitance found at or after it in the list.
   */
  lemma NetDelayIsElmore(res: seq<SpefResistance>, caps: seq<SpefCapacitance>, netName: string, instanceName: string)
    ensures NetDelayOf(res, caps, netName, instanceName)
            == Elmore(Weights(res, netName, instanceName), Caps(res, caps, netName, instanceName))
  {
    NetDelayIsFold(res, caps, netName, instanceName);
    FoldIsElmore(Weights(res, netName, instanceName), Caps(res, caps, netName, instanceName));
  }
}
