/**
 * The ballot page (src/app/voting/page.tsx): one selection per post of
 * `VOTING_DATA`, kept in a record keyed by post slug, and a confirmation
 * dialog in front of the final submission. Browser alerts and router
 * navigation are effects the page emits; the dialog (src/components/Modal.tsx)
 * offers its buttons only while it is open.
 */
module VotingPage {
  import opened Common
  import opened JsRecord
  import opened MockData

  const IncompleteAlert: string := "Please select a candidate for all posts."
  const SubmittedAlert: string := "Vote Submitted Successfully! Thank you."
  const HomePath: string := "/"

  datatype Effect = Alert(text: string) | Navigate(path: string)

  datatype Ballot = Ballot(selections: Entries<string>, modalOpen: bool)

  const InitialBallot: Ballot := Ballot([], false)

  /** `selections[postId]` is truthy: present and not the empty string. */
  predicate Answered(selections: Entries<string>, postId: string) {
    var v := Get(selections, postId);
    v.Some? && v.value != ""
  }

  /** `handleSelect`: the post's entry is replaced (last write wins) and nothing else changes. */
  function HandleSelect(b: Ballot, postId: string, candidateId: string): (r: Ballot)
    ensures Get(r.selections, postId) == Some(candidateId)
    ensures forall k :: k != postId ==> Get(r.selections, k) == Get(b.selections, k)
    ensures Keys(r.selections) == Keys(b.selections) + {postId}
    ensures UniqueKeys(b.selections) ==> UniqueKeys(r.selections)
    ensures r.modalOpen == b.modalOpen
  {
    b.(selections := Put(b.selections, postId, candidateId))
  }

  /** `isFormComplete`: every post of the ballot has a truthy selection. */
  predicate IsFormComplete(selections: Entries<string>) {
    forall i :: 0 <= i < |VotingData| ==> Answered(selections, VotingData[i].id)
  }

  /** The ballot is complete exactly when the four posts, named by slug, are answered. */
  lemma FormCompleteIffFourPosts(selections: Entries<string>)
    ensures IsFormComplete(selections) <==>
              && Answered(selections, "president") && Answered(selections, "gen_sec")
              && Answered(selections, "vice_pres") && Answered(selections, "treasurer")
  {
    assert VotingData[0].id == "president" && VotingData[1].id == "gen_sec";
    assert VotingData[2].id == "vice_pres" && VotingData[3].id == "treasurer";
    assert |VotingData| == 4;
  }

  /** `handleInitialSubmit`: an incomplete ballot only raises an alert; a complete one opens the dialog. */
  function InitialSubmit(b: Ballot): (r: (Ballot, seq<Effect>))
    ensures !IsFormComplete(b.selections) ==> r == (b, [Alert(IncompleteAlert)])
    ensures IsFormComplete(b.selections) ==> r.0 == b.(modalOpen := true) && r.1 == []
  {
    if !IsFormComplete(b.selections) then (b, [Alert(IncompleteAlert)])
    else (b.(modalOpen := true), [])
  }

  /** `handleConfirmVote`: thank the voter, go home and close the dialog; the selections stay as they are. */
  function ConfirmVote(b: Ballot): (r: (Ballot, seq<Effect>))
    ensures !r.0.modalOpen && r.0.selections == b.selections
    ensures r.1 == [Alert(SubmittedAlert), Navigate(HomePath)]
  {
    (b.(modalOpen := false), [Alert(SubmittedAlert), Navigate(HomePath)])
  }

  /** The dialog's cancel button. */
  function CancelVote(b: Ballot): (r: Ballot)
    ensures !r.modalOpen && r.selections == b.selections
  {
    b.(modalOpen := false)
  }

  /** Cancelling loses nothing: submitting again reopens the dialog over the same selections, without an alert. */
  lemma CancelThenResubmit(b: Ballot)
    requires b.modalOpen && IsFormComplete(b.selections)
    ensures InitialSubmit(CancelVote(b)) == (b, [])
  {
  }

  /** Pressing submit again changes nothing further: the same dialog state and the same alert, if any. */
  lemma SubmitIsIdempotent(b: Ballot)
    ensures InitialSubmit(InitialSubmit(b).0) == InitialSubmit(b)
  {
  }

  // ---------------------------------------------------------------------
  // The page as a sequence of user actions
  // ---------------------------------------------------------------------

  datatype Action = Select(postId: string, candidateId: string) | Submit | Confirm | Cancel

  /** The dialog's buttons exist only while it is open. */
  predicate Enabled(b: Ballot, a: Action) {
    (a.Confirm? || a.Cancel?) ==> b.modalOpen
  }

  function Step(b: Ballot, a: Action): (Ballot, seq<Effect>) {
    match a
    case Select(p, c) => (HandleSelect(b, p, c), [])
    case Submit => InitialSubmit(b)
    case Confirm => ConfirmVote(b)
    case Cancel => (CancelVote(b), [])
  }

  /** Every action is enabled in turn, and every selected candidate id is non-empty, as all ids of the ballot are. */
  predicate Playable(b: Ballot, actions: seq<Action>)
    decreases |actions|
  {
    |actions| == 0 ||
    (&& Enabled(b, actions[0])
     && (actions[0].Select? ==> actions[0].candidateId != "")
     && Playable(Step(b, actions[0]).0, actions[1..]))
  }

  /** The state after a sequence of actions, and every effect emitted on the way. */
  function Run(b: Ballot, actions: seq<Action>): (Ballot, seq<Effect>)
    decreases |actions|
  {
    if |actions| == 0 then (b, [])
    else
      var (b', effects) := Step(b, actions[0]);
      var (b'', more) := Run(b', actions[1..]);
      (b'', effects + more)
  }

  /** The dialog is open only over a complete ballot. */
  predicate DialogInvariant(b: Ballot) {
    b.modalOpen ==> IsFormComplete(b.selections)
  }

  lemma StepKeepsDialogInvariant(b: Ballot, a: Action)
    requires DialogInvariant(b) && Enabled(b, a) && (a.Select? ==> a.candidateId != "")
    ensures DialogInvariant(Step(b, a).0)
  {
    if a.Select? && b.modalOpen {
      var r := HandleSelect(b, a.postId, a.candidateId);
      forall i | 0 <= i < |VotingData| ensures Answered(r.selections, VotingData[i].id) {
        assert Answered(b.selections, VotingData[i].id);
      }
    }
  }

  /** Along any playable sequence from the empty ballot, the dialog never opens over an incomplete ballot. */
  lemma {:induction false} RunKeepsDialogInvariant(b: Ballot, actions: seq<Action>)
    requires DialogInvariant(b) && Playable(b, actions)
    ensures DialogInvariant(Run(b, actions).0)
    decreases |actions|
  {
    if |actions| > 0 {
      StepKeepsDialogInvariant(b, actions[0]);
      RunKeepsDialogInvariant(Step(b, actions[0]).0, actions[1..]);
    }
  }

  /** Therefore a confirmation only ever happens on a complete ballot. */
  lemma ConfirmOnlyWhenComplete(actions: seq<Action>)
    requires Playable(InitialBallot, actions + [Confirm])
    ensures IsFormComplete(Run(InitialBallot, actions).0.selections)
  {
    PlayablePrefix(InitialBallot, actions, [Confirm]);
    RunKeepsDialogInvariant(InitialBallot, actions);
    RunAppend(InitialBallot, actions, [Confirm]);
  }

  lemma {:induction false} PlayablePrefix(b: Ballot, xs: seq<Action>, ys: seq<Action>)
    requires Playable(b, xs + ys)
    ensures Playable(b, xs) && Playable(Run(b, xs).0, ys)
    decreases |xs|
  {
    if |xs| > 0 {
      assert (xs + ys)[0] == xs[0] && (xs + ys)[1..] == xs[1..] + ys;
      PlayablePrefix(Step(b, xs[0]).0, xs[1..], ys);
    } else {
      assert xs + ys == ys;
    }
  }

  lemma {:induction false} RunAppend(b: Ballot, xs: seq<Action>, ys: seq<Action>)
    ensures Run(b, xs + ys).0 == Run(Run(b, xs).0, ys).0
    decreases |xs|
  {
    if |xs| > 0 {
      assert (xs + ys)[0] == xs[0] && (xs + ys)[1..] == xs[1..] + ys;
      RunAppend(Step(b, xs[0]).0, xs[1..], ys);
    } else {
      assert xs + ys == ys;
    }
  }

  /** No action removes an answered post's key: the set of answered posts only grows. */
  lemma {:induction false} KeysNeverShrink(b: Ballot, actions: seq<Action>)
    ensures Keys(b.selections) <= Keys(Run(b, actions).0.selections)
    decreases |actions|
  {
    if |actions| > 0 {
      KeysNeverShrink(Step(b, actions[0]).0, actions[1..]);
    }
  }

  /** Only a confirmation navigates, and it always goes home. */
  lemma OnlyConfirmNavigates(b: Ballot, a: Action)
    ensures Navigate(HomePath) in Step(b, a).1 <==> a.Confirm?
    ensures forall e :: e in Step(b, a).1 && e.Navigate? ==> e == Navigate(HomePath)
  {
  }

  /** Filling each post with one of its own candidates completes the ballot. */
  lemma FillingEveryPostCompletes(js: seq<nat>)
    requires |js| == |VotingData|
    requires forall i :: 0 <= i < |js| ==> js[i] < |VotingData[i].candidates|
    ensures IsFormComplete(Run(InitialBallot, FillActions(js)).0.selections)
  {
    FillAnswers(InitialBallot, js, 0);
    assert FillActions(js)[0..] == FillActions(js);
  }

  /** Selecting candidate `js[i]` of post `i`, for every post in order. */
  function FillActions(js: seq<nat>): (r: seq<Action>)
    requires |js| <= |VotingData|
    requires forall i :: 0 <= i < |js| ==> js[i] < |VotingData[i].candidates|
    ensures |r| == |js|
  {
    seq(|js|, i requires 0 <= i < |js| => Select(VotingData[i].id, VotingData[i].candidates[js[i]].id))
  }

  lemma {:induction false} FillAnswers(b: Ballot, js: seq<nat>, start: nat)
    requires |js| == |VotingData| && start <= |js|
    requires forall i :: 0 <= i < |js| ==> js[i] < |VotingData[i].candidates|
    requires forall i :: 0 <= i < start ==> Answered(b.selections, VotingData[i].id)
    ensures forall i :: 0 <= i < |js| ==> Answered(Run(b, FillActions(js)[start..]).0.selections, VotingData[i].id)
    decreases |js| - start
  {
    var acts := FillActions(js)[start..];
    if start == |js| {
      assert acts == [];
    } else {
      VotingDataIdsNonEmpty();
      var b' := Step(b, acts[0]).0;
      assert acts[1..] == FillActions(js)[start + 1..];
      forall i | 0 <= i < start + 1 ensures Answered(b'.selections, VotingData[i].id) {
        if i < start {
          assert Answered(b.selections, VotingData[i].id);
        }
      }
      FillAnswers(b', js, start + 1);
    }
  }

  /** Every candidate id of the ballot is non-empty. */
  lemma VotingDataIdsNonEmpty()
    ensures forall i, j :: 0 <= i < |VotingData| && 0 <= j < |VotingData[i].candidates| ==> VotingData[i].candidates[j].id != ""
  {
    forall i, j | 0 <= i < |VotingData| && 0 <= j < |VotingData[i].candidates|
      ensures VotingData[i].candidates[j].id != ""
    {
      assert |VotingData[i].candidates| == 4;
      assert i == 0 || i == 1 || i == 2 || i == 3;
    }
  }
}
