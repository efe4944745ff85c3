/** The approval gate fed with canonical fingerprints, as the service feeds it. */
module ForceStop {
  import opened Fingerprint
  import opened ApprovalGate

  /** Call `i` of the run carries the fingerprint of request `i`. */
  ghost predicate Fingerprinted(r: Run, requests: seq<Request>, hash: string -> string) {
    && |requests| == |r.calls|
    && (forall i :: 0 <= i < |requests| ==> ProperRequest(requests[i]))
    && (forall i :: 0 <= i < |requests| ==> r.calls[i].fingerprint == hash(Preimage(requests[i])))
  }

  /** The hash does not collide on the requests of this run. */
  ghost predicate NoCollision(requests: seq<Request>, hash: string -> string) {
    forall i, j :: 0 <= i < |requests| && 0 <= j < |requests|
                   && hash(Preimage(requests[i])) == hash(Preimage(requests[j]))
      ==> Preimage(requests[i]) == Preimage(requests[j])
  }

  /**
   * In every run, a command is approved only when two different operators
   * submitted the same command: every semantic field agrees and the parameter
   * trees are equal as maps.
   */
  lemma ApprovedCommandWasSubmittedTwice(r: Run, requests: seq<Request>, hash: string -> string, i: nat)
    requires IsRun(r) && Fingerprinted(r, requests, hash) && NoCollision(requests, hash)
    requires i < |r.calls| && r.answers[i].Approved?
    ensures var j := Consumed(r, i);
            && j.Some? && j.value < i
            && r.calls[j.value].key == r.calls[i].key
            && r.calls[j.value].operator != r.calls[i].operator
            && SameRequest(requests[j.value], requests[i])
  {
    ApprovalNeedsTwoOperators(r, i);
    FingerprintsAgree(hash, requests[Consumed(r, i).value], requests[i]);
  }

  /** And the other way round, with time moving forward: exactly then. */
  lemma ApprovedExactlyForTheSameCommand(r: Run, requests: seq<Request>, hash: string -> string, i: nat)
    requires IsRun(r) && Fingerprinted(r, requests, hash) && NoCollision(requests, hash)
    requires i < |r.calls| && TimeMovesForward(r.calls)
    ensures r.answers[i].Approved? <==>
            var j := Holder(r, i, r.calls[i].key);
            && j.Some?
            && SameRequest(requests[j.value], requests[i])
            && r.calls[j.value].operator != r.calls[i].operator
            && r.calls[i].now - r.calls[j.value].now < 900_000
  {
    ApprovedExactlyWhen(r, i);
    if Holder(r, i, r.calls[i].key).Some? {
      FingerprintsAgree(hash, requests[Holder(r, i, r.calls[i].key).value], requests[i]);
    }
  }
}
