/** Stage 0's choice of the stage 1 slot to start. */
module Stage0 {
  import opened Bytes
  import opened Results
  import opened Status

  datatype SlotState = EMPTY | CONFIRMED | TRIAL | REJECTED | INVALID

  datatype Reason = TRIAL_STAGE1 | CONFIRMED_STAGE1

  datatype Candidate = Candidate(
    slotId: U32,
    state: SlotState,
    authenticated: bool,
    securityEpoch: U32,
    imageBase: nat,
    imageSize: nat,
    entryPoint: nat,
    trialAttempt: U32,
    maxTrialAttempts: U32)

  /** The caller's decision struct. */
  class Decision {
    var selectedSlotId: U32
    var entryPoint: nat
    var reason: Reason
  }

  predicate HasExecutableShape(c: Candidate) {
    c.authenticated && c.imageBase != 0 && c.imageSize != 0 && c.entryPoint != 0
  }

  predicate EligibleTrial(c: Candidate, minimumSecurityEpoch: U32) {
    HasExecutableShape(c) && c.state == TRIAL && c.securityEpoch >= minimumSecurityEpoch
    && c.trialAttempt < c.maxTrialAttempts
  }

  predicate EligibleConfirmed(c: Candidate, minimumSecurityEpoch: U32) {
    HasExecutableShape(c) && c.state == CONFIRMED && c.securityEpoch >= minimumSecurityEpoch
  }

  /** `currentBest` is NULL while nothing was chosen. */
  predicate IsPreferred(c: Candidate, currentBest: Option<Candidate>) {
    if currentBest.None? then true
    else if c.securityEpoch > currentBest.value.securityEpoch then true
    else if c.securityEpoch < currentBest.value.securityEpoch then false
    else c.slotId < currentBest.value.slotId
  }

  // ---------------------------------------------------------------------------
  // One order over all eligible candidates
  // ---------------------------------------------------------------------------

  predicate Eligible(c: Candidate, minimumSecurityEpoch: U32) {
    EligibleTrial(c, minimumSecurityEpoch) || EligibleConfirmed(c, minimumSecurityEpoch)
  }

  /** Trial before confirmed, then the higher epoch, then the lower slot ID. */
  predicate Outranks(c: Candidate, d: Candidate) {
    if c.state != d.state then c.state == TRIAL
    else if c.securityEpoch != d.securityEpoch then c.securityEpoch > d.securityEpoch
    else c.slotId < d.slotId
  }

  /** The candidate at `i` comes before the one at `j`; position breaks what ties are left. */
  predicate Beats(candidates: seq<Candidate>, i: nat, j: nat)
    requires i < |candidates| && j < |candidates|
  {
    Outranks(candidates[i], candidates[j]) || (!Outranks(candidates[j], candidates[i]) && i < j)
  }

  predicate EligibleAt(candidates: seq<Candidate>, i: nat, minimumSecurityEpoch: U32) {
    i < |candidates| && Eligible(candidates[i], minimumSecurityEpoch)
  }

  /** `w` is eligible and beats every other eligible candidate. */
  ghost predicate Winner(candidates: seq<Candidate>, minimumSecurityEpoch: U32, w: nat) {
    && EligibleAt(candidates, w, minimumSecurityEpoch)
    && forall j: nat :: EligibleAt(candidates, j, minimumSecurityEpoch) && j != w ==> Beats(candidates, w, j)
  }

  // ---------------------------------------------------------------------------
  // The code
  // ---------------------------------------------------------------------------

  method SelectTrial(candidates: array<Candidate>, count: nat, minimumSecurityEpoch: U32) returns (best: Option<nat>)
    requires count <= candidates.Length
    ensures best.None? ==> forall j :: 0 <= j < count ==> !EligibleTrial(candidates[j], minimumSecurityEpoch)
    ensures best.Some? ==>
              && best.value < count && EligibleTrial(candidates[best.value], minimumSecurityEpoch)
              && forall j :: 0 <= j < count && j != best.value && EligibleTrial(candidates[j], minimumSecurityEpoch)
                   ==> Beats(candidates[..count], best.value, j)
  {
    best := None;
    for index := 0 to count
      invariant best.None? ==> forall j :: 0 <= j < index ==> !EligibleTrial(candidates[j], minimumSecurityEpoch)
      invariant best.Some? ==>
                  && best.value < index && EligibleTrial(candidates[best.value], minimumSecurityEpoch)
                  && forall j :: 0 <= j < index && j != best.value && EligibleTrial(candidates[j], minimumSecurityEpoch)
                       ==> Beats(candidates[..count], best.value, j)
    {
      var candidate := candidates[index];
      var currentBest := if best.Some? then Some(candidates[best.value]) else None;
      if EligibleTrial(candidate, minimumSecurityEpoch) && IsPreferred(candidate, currentBest) {
        best := Some(index);
      }
    }
  }

  method SelectConfirmed(candidates: array<Candidate>, count: nat, minimumSecurityEpoch: U32)
    returns (best: Option<nat>)
    requires count <= candidates.Length
    ensures best.None? ==> forall j :: 0 <= j < count ==> !EligibleConfirmed(candidates[j], minimumSecurityEpoch)
    ensures best.Some? ==>
              && best.value < count && EligibleConfirmed(candidates[best.value], minimumSecurityEpoch)
              && forall j :: 0 <= j < count && j != best.value && EligibleConfirmed(candidates[j], minimumSecurityEpoch)
                   ==> Beats(candidates[..count], best.value, j)
  {
    best := None;
    for index := 0 to count
      invariant best.None? ==> forall j :: 0 <= j < index ==> !EligibleConfirmed(candidates[j], minimumSecurityEpoch)
      invariant best.Some? ==>
                  && best.value < index && EligibleConfirmed(candidates[best.value], minimumSecurityEpoch)
                  && forall j | 0 <= j < index && j != best.value
                                && EligibleConfirmed(candidates[j], minimumSecurityEpoch)
                       :: Beats(candidates[..count], best.value, j)
    {
      var candidate := candidates[index];
      var currentBest := if best.Some? then Some(candidates[best.value]) else None;
      if EligibleConfirmed(candidate, minimumSecurityEpoch) && IsPreferred(candidate, currentBest) {
        best := Some(index);
      }
    }
  }

  lemma WinnersAgree(candidates: seq<Candidate>, minimumSecurityEpoch: U32, w: nat)
    requires Winner(candidates, minimumSecurityEpoch, w)
    ensures forall v: nat :: Winner(candidates, minimumSecurityEpoch, v) ==> v == w
  {
    forall v: nat | Winner(candidates, minimumSecurityEpoch, v) ensures v == w {
      WinnerIsUnique(candidates, minimumSecurityEpoch, v, w);
    }
  }

  /** The two scans together pick the one winner, and write the decision only when there is one. */
  method SelectStage1(candidates: array?<Candidate>, count: nat, minimumSecurityEpoch: U32, decision: Decision?)
    returns (status: Status)
    requires candidates != null ==> count <= candidates.Length
    modifies decision
    ensures candidates == null || decision == null ==> status == ERR_INVALID_ARGUMENT
    ensures candidates != null && decision != null ==>
              status == if exists w: nat :: Winner(candidates[..count], minimumSecurityEpoch, w)
                        then OK else ERR_NO_BOOTABLE_IMAGE
    ensures candidates != null && decision != null ==>
              (status == OK <==> exists j: nat :: EligibleAt(candidates[..count], j, minimumSecurityEpoch))
    ensures status == OK ==>
              forall w: nat :: Winner(candidates[..count], minimumSecurityEpoch, w) ==>
                && decision.selectedSlotId == candidates[w].slotId
                && decision.entryPoint == candidates[w].entryPoint
                && decision.reason == (if candidates[w].state == TRIAL then TRIAL_STAGE1 else CONFIRMED_STAGE1)
    ensures status == OK ==>
              exists w :: 0 <= w < count
                && candidates[w].authenticated && candidates[w].securityEpoch >= minimumSecurityEpoch
                && candidates[w].imageBase != 0 && candidates[w].imageSize != 0 && candidates[w].entryPoint != 0
                && (candidates[w].state == CONFIRMED
                    || (candidates[w].state == TRIAL && candidates[w].trialAttempt < candidates[w].maxTrialAttempts))
                && decision.selectedSlotId == candidates[w].slotId && decision.entryPoint == candidates[w].entryPoint
    ensures decision != null && status != OK ==>
              decision.selectedSlotId == old(decision.selectedSlotId) && decision.entryPoint == old(decision.entryPoint)
              && decision.reason == old(decision.reason)
  {
    if candidates == null || decision == null {
      return ERR_INVALID_ARGUMENT;
    }
    ghost var cands := candidates[..count];
    if count == 0 {
      return ERR_NO_BOOTABLE_IMAGE;
    }
    var selected := SelectTrial(candidates, count, minimumSecurityEpoch);
    if selected.Some? {
      assert Winner(cands, minimumSecurityEpoch, selected.value);
      decision.selectedSlotId := candidates[selected.value].slotId;
      decision.entryPoint := candidates[selected.value].entryPoint;
      decision.reason := TRIAL_STAGE1;
      assert candidates[..count] == cands;
      WinnersAgree(cands, minimumSecurityEpoch, selected.value);
      return OK;
    }
    selected := SelectConfirmed(candidates, count, minimumSecurityEpoch);
    if selected.Some? {
      assert Winner(cands, minimumSecurityEpoch, selected.value);
      decision.selectedSlotId := candidates[selected.value].slotId;
      decision.entryPoint := candidates[selected.value].entryPoint;
      decision.reason := CONFIRMED_STAGE1;
      assert candidates[..count] == cands;
      WinnersAgree(cands, minimumSecurityEpoch, selected.value);
      return OK;
    }
    return ERR_NO_BOOTABLE_IMAGE;
  }

  // ---------------------------------------------------------------------------
  // The choice as one number per candidate
  // ---------------------------------------------------------------------------

  /** Trial before confirmed, then the higher epoch, then the lower slot ID, as digits of one number. */
  function Score(c: Candidate): nat {
    ((if c.state == TRIAL then 1 else 0) * 0x1_0000_0000 + c.securityEpoch) * 0x1_0000_0000
    + (0xFFFF_FFFF - c.slotId)
  }

  lemma OutranksByScore(c: Candidate, d: Candidate)
    requires c.state in {TRIAL, CONFIRMED} && d.state in {TRIAL, CONFIRMED}
    ensures Outranks(c, d) <==> Score(c) > Score(d)
  {
  }

  /** What makes a candidate eligible, field by field. */
  lemma EligibleExactly(candidates: seq<Candidate>, j: nat, minimumSecurityEpoch: U32)
    ensures EligibleAt(candidates, j, minimumSecurityEpoch) <==>
            && j < |candidates|
            && var c := candidates[j];
            && c.authenticated && c.imageBase > 0 && c.imageSize > 0 && c.entryPoint > 0
            && c.securityEpoch >= minimumSecurityEpoch
            && match c.state {
                 case TRIAL => c.trialAttempt < c.maxTrialAttempts
                 case CONFIRMED => true
                 case _ => false
               }
  {
  }

  /** The winner is the earliest of the eligible candidates with the greatest score. */
  lemma WinnerMaximizesScore(candidates: seq<Candidate>, minimumSecurityEpoch: U32, w: nat)
    ensures Winner(candidates, minimumSecurityEpoch, w) <==>
            && EligibleAt(candidates, w, minimumSecurityEpoch)
            && forall j: nat :: EligibleAt(candidates, j, minimumSecurityEpoch) && j != w ==>
                 Score(candidates[w]) > Score(candidates[j])
                 || (Score(candidates[w]) == Score(candidates[j]) && w < j)
  {
    hide Score, Outranks;
    forall j: nat | EligibleAt(candidates, j, minimumSecurityEpoch) && EligibleAt(candidates, w, minimumSecurityEpoch)
      ensures Beats(candidates, w, j) <==>
              Score(candidates[w]) > Score(candidates[j])
              || (Score(candidates[w]) == Score(candidates[j]) && w < j)
    {
      OutranksByScore(candidates[w], candidates[j]);
      OutranksByScore(candidates[j], candidates[w]);
    }
  }

  // ---------------------------------------------------------------------------
  // Algebra of the choice
  // ---------------------------------------------------------------------------

  /** Among eligible positions, coming before is a strict total order. */
  lemma BeatsIsTotalOrder(candidates: seq<Candidate>, minimumSecurityEpoch: U32, i: nat, j: nat, k: nat)
    requires EligibleAt(candidates, i, minimumSecurityEpoch) && EligibleAt(candidates, j, minimumSecurityEpoch)
    requires EligibleAt(candidates, k, minimumSecurityEpoch)
    ensures !Beats(candidates, i, i)
    ensures i != j ==> (Beats(candidates, i, j) <==> !Beats(candidates, j, i))
    ensures Beats(candidates, i, j) && Beats(candidates, j, k) ==> Beats(candidates, i, k)
  {
  }

  /** There is at most one winner, and one whenever anything is eligible. */
  lemma WinnerIsUnique(candidates: seq<Candidate>, minimumSecurityEpoch: U32, v: nat, w: nat)
    requires Winner(candidates, minimumSecurityEpoch, v) && Winner(candidates, minimumSecurityEpoch, w)
    ensures v == w
  {
    if v != w {
      BeatsIsTotalOrder(candidates, minimumSecurityEpoch, v, w, v);
    }
  }

  lemma {:induction false} WinnerExists(candidates: seq<Candidate>, minimumSecurityEpoch: U32)
    requires exists j: nat :: EligibleAt(candidates, j, minimumSecurityEpoch)
    ensures exists w: nat :: Winner(candidates, minimumSecurityEpoch, w)
  {
    var front := candidates[..|candidates| - 1];
    var last := candidates[|candidates| - 1];
    assert candidates == front + [last];
    if exists j: nat :: EligibleAt(front, j, minimumSecurityEpoch) {
      WinnerExists(front, minimumSecurityEpoch);
      var w: nat :| Winner(front, minimumSecurityEpoch, w);
      if Eligible(last, minimumSecurityEpoch) {
        assert Winner([last], minimumSecurityEpoch, 0);
        WinnerOfConcat(front, [last], minimumSecurityEpoch, w, 0);
      } else {
        WinnerOfLeft(front, [last], minimumSecurityEpoch, w);
      }
    } else {
      ShiftedPositions(front, [last], minimumSecurityEpoch);
      var j: nat :| EligibleAt(candidates, j, minimumSecurityEpoch);
      assert j == |front|;
      assert Winner(candidates, minimumSecurityEpoch, j);
    }
  }

  lemma ShiftedPositions(left: seq<Candidate>, right: seq<Candidate>, minimumSecurityEpoch: U32)
    ensures forall j: nat :: j < |left| ==>
              (EligibleAt(left + right, j, minimumSecurityEpoch) <==> EligibleAt(left, j, minimumSecurityEpoch))
    ensures forall j: nat :: |left| <= j ==>
              (EligibleAt(left + right, j, minimumSecurityEpoch)
               <==> EligibleAt(right, j - |left|, minimumSecurityEpoch))
  {
  }

  /** The winner over a concatenation is the preferred of the two winners. */
  lemma WinnerOfConcat(left: seq<Candidate>, right: seq<Candidate>, minimumSecurityEpoch: U32, v: nat, w: nat)
    requires Winner(left, minimumSecurityEpoch, v) && Winner(right, minimumSecurityEpoch, w)
    ensures Winner(left + right, minimumSecurityEpoch, if Outranks(right[w], left[v]) then |left| + w else v)
  {
    var whole := left + right;
    var x := if Outranks(right[w], left[v]) then |left| + w else v;
    ShiftedPositions(left, right, minimumSecurityEpoch);
    assert EligibleAt(whole, v, minimumSecurityEpoch) && EligibleAt(whole, |left| + w, minimumSecurityEpoch);
    forall j: nat | EligibleAt(whole, j, minimumSecurityEpoch) && j != x ensures Beats(whole, x, j) {
      if j < |left| {
        assert j == v || Beats(left, v, j);
      } else {
        assert EligibleAt(right, j - |left|, minimumSecurityEpoch);
        assert j - |left| == w || Beats(right, w, j - |left|);
      }
    }
  }

  lemma WinnerOfLeft(left: seq<Candidate>, right: seq<Candidate>, minimumSecurityEpoch: U32, v: nat)
    requires Winner(left, minimumSecurityEpoch, v)
    requires forall j: nat :: !EligibleAt(right, j, minimumSecurityEpoch)
    ensures Winner(left + right, minimumSecurityEpoch, v)
  {
    ShiftedPositions(left, right, minimumSecurityEpoch);
    forall j: nat | EligibleAt(left + right, j, minimumSecurityEpoch) && j != v ensures Beats(left + right, v, j) {
      assert j < |left| && Beats(left, v, j);
    }
  }

  lemma WinnerOfRight(left: seq<Candidate>, right: seq<Candidate>, minimumSecurityEpoch: U32, w: nat)
    requires Winner(right, minimumSecurityEpoch, w)
    requires forall j: nat :: !EligibleAt(left, j, minimumSecurityEpoch)
    ensures Winner(left + right, minimumSecurityEpoch, |left| + w)
  {
    ShiftedPositions(left, right, minimumSecurityEpoch);
    var x := |left| + w;
    forall j: nat | EligibleAt(left + right, j, minimumSecurityEpoch) && j != x ensures Beats(left + right, x, j) {
      assert EligibleAt(right, j - |left|, minimumSecurityEpoch) && Beats(right, w, j - |left|);
    }
  }

  /** The winner, or nothing when no candidate is eligible. */
  ghost function Choice(candidates: seq<Candidate>, minimumSecurityEpoch: U32): (choice: Option<nat>)
    ensures choice.None? <==> forall j: nat :: !EligibleAt(candidates, j, minimumSecurityEpoch)
    ensures choice.Some? ==>
              forall w: nat :: Winner(candidates, minimumSecurityEpoch, w) <==> w == choice.value
  {
    if exists j: nat :: EligibleAt(candidates, j, minimumSecurityEpoch) then
      WinnerExists(candidates, minimumSecurityEpoch);
      var w: nat :| Winner(candidates, minimumSecurityEpoch, w);
      WinnersAgree(candidates, minimumSecurityEpoch, w);
      Some(w)
    else None
  }

  /** The better of a choice on the left and one on the right; the left one where neither outranks the other. */
  ghost function Preferred(left: seq<Candidate>, right: seq<Candidate>, v: Option<nat>, w: Option<nat>): Option<nat>
    requires (v.Some? ==> v.value < |left|) && (w.Some? ==> w.value < |right|)
  {
    if w.None? || (v.Some? && !Outranks(right[w.value], left[v.value])) then v else Some(|left| + w.value)
  }

  /** The choice over a concatenation is the preferred of the two choices, either of which may be missing. */
  lemma ChoiceOfConcat(left: seq<Candidate>, right: seq<Candidate>, minimumSecurityEpoch: U32)
    ensures var v, w := Choice(left, minimumSecurityEpoch), Choice(right, minimumSecurityEpoch);
            && (v.Some? ==> v.value < |left|)
            && (w.Some? ==> w.value < |right|)
            && Choice(left + right, minimumSecurityEpoch) == Preferred(left, right, v, w)
  {
    var v, w := Choice(left, minimumSecurityEpoch), Choice(right, minimumSecurityEpoch);
    ShiftedPositions(left, right, minimumSecurityEpoch);
    if v.Some? && w.Some? {
      WinnerOfConcat(left, right, minimumSecurityEpoch, v.value, w.value);
    } else if v.Some? {
      WinnerOfLeft(left, right, minimumSecurityEpoch, v.value);
    } else if w.Some? {
      WinnerOfRight(left, right, minimumSecurityEpoch, w.value);
    }
  }

  predicate DistinctSlots(candidates: seq<Candidate>) {
    forall i, j :: 0 <= i < j < |candidates| ==> candidates[i].slotId != candidates[j].slotId
  }

  lemma SameWinner(a: seq<Candidate>, b: seq<Candidate>, minimumSecurityEpoch: U32, v: nat, w: nat)
    requires DistinctSlots(a) && multiset(a) == multiset(b)
    requires Winner(a, minimumSecurityEpoch, v) && Winner(b, minimumSecurityEpoch, w)
    ensures a[v] == b[w]
  {
    assert a[v] in multiset(a) && b[w] in multiset(b);
    assert a[v] in b && b[w] in a;
    var j: nat :| j < |b| && b[j] == a[v];
    var k: nat :| k < |a| && a[k] == b[w];
    assert EligibleAt(b, j, minimumSecurityEpoch) && EligibleAt(a, k, minimumSecurityEpoch);
    assert j == w || Beats(b, w, j);
    assert k == v || Beats(a, v, k);
  }

  lemma EligibleAnywhere(a: seq<Candidate>, b: seq<Candidate>, minimumSecurityEpoch: U32, j: nat)
    requires multiset(a) == multiset(b) && EligibleAt(a, j, minimumSecurityEpoch)
    ensures exists k: nat :: EligibleAt(b, k, minimumSecurityEpoch)
  {
    assert a[j] in multiset(b);
    assert a[j] in b;
    var k: nat :| k < |b| && b[k] == a[j];
    assert EligibleAt(b, k, minimumSecurityEpoch);
  }

  /** With distinct slot IDs, listing the candidates in another order chooses the same one, or none as before. */
  lemma OrderDoesNotMatter(a: seq<Candidate>, b: seq<Candidate>, minimumSecurityEpoch: U32)
    requires DistinctSlots(a) && multiset(a) == multiset(b)
    ensures var v, w := Choice(a, minimumSecurityEpoch), Choice(b, minimumSecurityEpoch);
            && (v.Some? <==> w.Some?)
            && (v.Some? ==> v.value < |a| && w.value < |b| && a[v.value] == b[w.value])
  {
    var v, w := Choice(a, minimumSecurityEpoch), Choice(b, minimumSecurityEpoch);
    if v.Some? {
      EligibleAnywhere(a, b, minimumSecurityEpoch, v.value);
      SameWinner(a, b, minimumSecurityEpoch, v.value, w.value);
    } else if w.Some? {
      EligibleAnywhere(b, a, minimumSecurityEpoch, w.value);
    }
  }

  /** Deleting a loser keeps the winner. */
  lemma DeletingALoser(candidates: seq<Candidate>, minimumSecurityEpoch: U32, w: nat, loser: nat)
    requires Winner(candidates, minimumSecurityEpoch, w) && loser < |candidates| && loser != w
    ensures var rest := candidates[..loser] + candidates[loser + 1..];
            Winner(rest, minimumSecurityEpoch, if w < loser then w else w - 1)
  {
    var rest := candidates[..loser] + candidates[loser + 1..];
    var x := if w < loser then w else w - 1;
    assert rest[x] == candidates[w];
    forall j: nat | EligibleAt(rest, j, minimumSecurityEpoch) && j != x ensures Beats(rest, x, j) {
      var before := if j < loser then j else j + 1;
      assert rest[j] == candidates[before];
      assert EligibleAt(candidates, before, minimumSecurityEpoch) && Beats(candidates, w, before);
    }
  }

  /** Raising the minimum epoch no further than the winner's keeps the winner. */
  lemma RaisingTheMinimum(candidates: seq<Candidate>, minimum: U32, raised: U32, w: nat)
    requires Winner(candidates, minimum, w) && minimum <= raised <= candidates[w].securityEpoch
    ensures Winner(candidates, raised, w)
  {
    forall j: nat | EligibleAt(candidates, j, raised) && j != w ensures Beats(candidates, w, j) {
      assert EligibleAt(candidates, j, minimum);
    }
  }
}
