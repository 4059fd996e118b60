/** The forwarding service from its construction on: zones come and go, packets arrive. */
module ForwardService {
  import opened Bytes
  import opened Geometry
  import opened MaskZones
  import opened ContactMask
  import opened RawTouch
  import opened SourceForward
  import opened ForwardTheorems

  ghost predicate SourceActsFit(s: Setup, acts: seq<Act>) {
    forall i | 0 <= i < |acts| && acts[i].Arrival? :: PacketFits(s, acts[i].raw)
  }

  lemma {:induction false} ActsAreInputs(s: Setup, acts: seq<Act>)
    requires SourceActsFit(s, acts)
    ensures ActsFit(acts) && AllFit(s, InputsIn(acts))
  {
    if acts != [] {
      var front := acts[..|acts| - 1];
      assert forall i | 0 <= i < |front| :: front[i] == acts[i];
      ActsAreInputs(s, front);
    }
  }

  lemma FreshFwdOk(s: Setup)
    requires SetupOk(s)
    ensures FwdOk(s, FreshFwd()) && FreshTable(FreshFwd().tab)
  {}

  lemma DispatchNext(s: Setup, f: Fwd, inputs: seq<Input>, next: Input)
    requires FwdOk(s, f) && AllFit(s, inputs) && PacketFits(s, next.raw)
    ensures AllFit(s, inputs + [next])
    ensures DispatchAll(s, f, inputs + [next]) == Dispatch(s, DispatchAll(s, f, inputs), next.zones, next.raw)
  {
    assert (inputs + [next])[..|inputs|] == inputs;
  }

  lemma NoActs(s: Setup)
    requires SetupOk(s) && FwdOk(s, FreshFwd())
    ensures AllFit(s, InputsIn([])) && DispatchAll(s, FreshFwd(), InputsIn([])) == FreshFwd()
    ensures ActsFit([]) && ApplyAll(ChangesIn([])) == multiset{}
  {}

  lemma ActFits(s: Setup, acts: seq<Act>, i: nat)
    requires SourceActsFit(s, acts) && i < |acts|
    ensures SourceActsFit(s, acts[..i]) && (acts[i].Arrival? ==> PacketFits(s, acts[i].raw))
  {}

  /** A forwarder and its zone table through any history: what is written is what the run of
      the packets writes, each under the zones in force when it arrives. */
  method ForwardAll(setup: Setup, acts: seq<Act>) returns (out: seq<seq<byte>>)
    requires SetupOk(setup) && SourceActsFit(setup, acts)
    ensures FwdOk(setup, FreshFwd()) && ActsFit(acts) && AllFit(setup, InputsIn(acts))
    ensures out == DispatchAll(setup, FreshFwd(), InputsIn(acts)).out
  {
    hide *;
    ActsAreInputs(setup, acts);
    FreshFwdOk(setup);
    NoActs(setup);
    var zones := new ZoneTable();
    var forwarder := new SourceForwarder(setup, zones);
    assert acts[..0] == [];
    for i := 0 to |acts|
      invariant fresh(zones.zone) && fresh(forwarder) && fresh(forwarder.pointsToSource)
      invariant fresh(forwarder.filterBuf) && fresh(forwarder.sendBuf)
      invariant forwarder.Valid() && forwarder.zones == zones && forwarder.setup == setup
      invariant zones.Zones() == ApplyAll(ChangesIn(acts[..i]))
      invariant ActsFit(acts[..i]) && AllFit(setup, InputsIn(acts[..i])) && FwdOk(setup, forwarder.State())
      invariant forwarder.State() == DispatchAll(setup, FreshFwd(), InputsIn(acts[..i]))
    {
      HistorySnoc(acts, i);
      ActFits(setup, acts, i);
      if acts[i].Arrival? {
        DispatchNext(setup, FreshFwd(), InputsIn(acts[..i]), Input(ApplyAll(ChangesIn(acts[..i])), acts[i].raw));
      }
      forwarder.Happen(acts[i]);
    }
    assert acts[..|acts|] == acts;
    out := OutOf(forwarder);
  }

  method OutOf(forwarder: SourceForwarder) returns (out: seq<seq<byte>>)
    ensures out == forwarder.State().out
  {
    out := forwarder.sent;
  }
}
