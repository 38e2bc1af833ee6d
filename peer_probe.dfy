/**
  Selection of a working OOB peer: the configured peers are probed in
  order with a reachability check and the first one that answers is kept.
  The check itself is a parameter (a probe over the overlay network).
 */
module PeerProbe {
  import opened Wrappers

  /** Why no peer could be selected. */
  datatype ProbeError = NoPeersConfigured | NoReachablePeer

  /** The index of the first peer that `canConnect` accepts, if any. */
  function FirstReachable(peers: seq<string>, canConnect: string -> bool): (k: Option<nat>)
    ensures k.Some? ==> k.value < |peers| && canConnect(peers[k.value])
    ensures k.Some? ==> forall j :: 0 <= j < k.value ==> !canConnect(peers[j])
    ensures k.None? <==> forall j :: 0 <= j < |peers| ==> !canConnect(peers[j])
    decreases |peers|
  {
    if peers == [] then None
    else if canConnect(peers[0]) then Some(0)
    else
      match FirstReachable(peers[1..], canConnect)
      case None => None
      case Some(k) => Some(k + 1)
  }

  /** Probes `peers` in list order, stopping at the first reachable one.
      An empty list fails before any probe. `probed` records the peers
      checked, in the order they were checked. The empty string doubles as
      "none found", so a reachable peer named "" is reported as no
      reachable peer. */
  method SelectWorkingPeer(peers: seq<string>, canConnect: string -> bool)
    returns (outcome: Result<string, ProbeError>, probed: seq<string>)
    ensures peers == [] ==> outcome == Failure(NoPeersConfigured) && probed == []
    ensures peers != [] && FirstReachable(peers, canConnect).None? ==>
      outcome == Failure(NoReachablePeer) && probed == peers
    ensures peers != [] && FirstReachable(peers, canConnect).Some? ==>
      var k := FirstReachable(peers, canConnect).value;
      && probed == peers[..k + 1]
      && |probed| == k + 1
      && outcome == (if peers[k] == "" then Failure(NoReachablePeer) else Success(peers[k]))
  {
    if |peers| == 0 {
      return Failure(NoPeersConfigured), [];
    }
    var workingPeer := "";
    probed := [];
    var i := 0;
    while i < |peers|
      invariant 0 <= i <= |peers|
      invariant probed == peers[..i] && workingPeer == ""
      invariant forall j :: 0 <= j < i ==> !canConnect(peers[j])
    {
      probed := probed + [peers[i]];
      if canConnect(peers[i]) {
        workingPeer := peers[i];
        assert FirstReachable(peers, canConnect) == Some(i);
        break;
      }
      i := i + 1;
    }
    if workingPeer == "" {
      outcome := Failure(NoReachablePeer);
    } else {
      outcome := Success(workingPeer);
    }
  }
}
