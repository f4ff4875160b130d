/**
 * The older ballot component (components/VotingDashboard.tsx): votes in a
 * record keyed by the numeric post ids of `POSTS`, a submission that asks
 * for confirmation (and lets an incomplete ballot through when the voter
 * insists), and a simulated submission that ends, when its timer fires,
 * in a success view that replaces the ballot for good. The voter's answer
 * to `window.confirm` is an input; the timer firing is an event.
 */
module VotingDashboard {
  import opened MockData

  const IncompletePrompt: string := "You haven't selected a candidate for all posts. Do you wish to proceed anyway?"
  const FinalPrompt: string := "Are you sure you want to submit your vote? This action cannot be undone."

  datatype Dashboard = Dashboard(votes: map<int, string>, submitting: bool, submitted: bool)

  const InitialDashboard: Dashboard := Dashboard(map[], false, false)

  /** `votes[postId]` is truthy. */
  predicate Voted(votes: map<int, string>, postId: int) {
    postId in votes && votes[postId] != ""
  }

  /** `handleVote`: only the given post's vote changes. */
  function HandleVote(d: Dashboard, postId: int, candidateId: string): (r: Dashboard)
    ensures postId in r.votes && r.votes[postId] == candidateId
    ensures forall p :: p != postId ==> (p in r.votes <==> p in d.votes)
    ensures forall p :: p != postId && p in d.votes ==> r.votes[p] == d.votes[p]
    ensures r.submitting == d.submitting && r.submitted == d.submitted
  {
    d.(votes := d.votes[postId := candidateId])
  }

  /** `allVoted`: every post of `POSTS` has a truthy vote. */
  predicate AllVoted(votes: map<int, string>) {
    forall i :: 0 <= i < |DashboardPosts| ==> Voted(votes, DashboardPosts[i].id)
  }

  /** The posts of the dashboard are numbered 1 to 4, so a complete ballot answers exactly those numbers. */
  lemma AllVotedIffOneToFour(votes: map<int, string>)
    ensures AllVoted(votes) <==> forall p :: 1 <= p <= 4 ==> Voted(votes, p)
  {
    assert DashboardPosts[0].id == 1 && DashboardPosts[1].id == 2;
    assert DashboardPosts[2].id == 3 && DashboardPosts[3].id == 4;
    if forall p :: 1 <= p <= 4 ==> Voted(votes, p) {
      forall i | 0 <= i < |DashboardPosts| ensures Voted(votes, DashboardPosts[i].id) {
        assert 1 <= DashboardPosts[i].id <= 4;
      }
    }
    if AllVoted(votes) {
      forall p | 1 <= p <= 4 ensures Voted(votes, p) {
        assert DashboardPosts[p - 1].id == p;
      }
    }
  }

  /** The question `handleSubmit` asks before anything happens. */
  function SubmitPrompt(votes: map<int, string>): (q: string)
    ensures q == IncompletePrompt <==> !AllVoted(votes)
    ensures q == FinalPrompt <==> AllVoted(votes)
  {
    if !AllVoted(votes) then IncompletePrompt else FinalPrompt
  }

  /** `handleSubmit`, given the voter's answer: a refusal changes nothing, an acceptance starts submitting. */
  function HandleSubmit(d: Dashboard, accepted: bool): (r: Dashboard)
    ensures !accepted ==> r == d
    ensures accepted ==> r == d.(submitting := true)
  {
    if !accepted then d else d.(submitting := true)
  }

  /** The timer set by an accepted submission fires. */
  function SubmissionDone(d: Dashboard): (r: Dashboard)
    ensures !r.submitting && r.submitted && r.votes == d.votes
  {
    d.(submitting := false, submitted := true)
  }

  // ---------------------------------------------------------------------
  // What is on screen
  // ---------------------------------------------------------------------

  datatype View =
    | SuccessView
    | BallotView(submitDisabled: bool, submitLabel: string)

  function Render(d: Dashboard): (v: View)
    ensures d.submitted <==> v == SuccessView
    ensures v.BallotView? ==> (v.submitDisabled <==> d.submitting)
  {
    if d.submitted then SuccessView
    else BallotView(d.submitting, if d.submitting then "Submitting..." else "Submit Final Vote")
  }

  // ---------------------------------------------------------------------
  // The component over time
  // ---------------------------------------------------------------------

  datatype Event = Vote(postId: int, candidateId: string) | Submit(accepted: bool) | TimerFired

  /**
   * What can happen next. The ballot, and with it the voting and submit
   * controls, is on screen only before submission; the submit button is
   * disabled while submitting; a timer is pending exactly while submitting.
   */
  predicate Enabled(d: Dashboard, e: Event) {
    match e
    case Vote(_, _) => !d.submitted
    case Submit(_) => !d.submitted && !d.submitting
    case TimerFired => d.submitting
  }

  function Step(d: Dashboard, e: Event): Dashboard {
    match e
    case Vote(p, c) => HandleVote(d, p, c)
    case Submit(accepted) => HandleSubmit(d, accepted)
    case TimerFired => SubmissionDone(d)
  }

  /** The three phases of a submission, in order. */
  function Phase(d: Dashboard): (n: nat)
    ensures n <= 2
  {
    if d.submitted then 2 else if d.submitting then 1 else 0
  }

  /** Submitting and submitted never hold together. */
  predicate Consistent(d: Dashboard) {
    !(d.submitting && d.submitted)
  }

  /** Each enabled event keeps the state consistent and moves the phase forward by at most one. */
  lemma StepAdvancesPhase(d: Dashboard, e: Event)
    requires Consistent(d) && Enabled(d, e)
    ensures Consistent(Step(d, e))
    ensures Phase(d) <= Phase(Step(d, e)) <= Phase(d) + 1
    ensures e.Submit? ==> Phase(Step(d, e)) == (if e.accepted then 1 else 0)
    ensures e.TimerFired? ==> Phase(Step(d, e)) == 2
  {
  }

  predicate Playable(d: Dashboard, events: seq<Event>)
    decreases |events|
  {
    |events| == 0 || (Enabled(d, events[0]) && Playable(Step(d, events[0]), events[1..]))
  }

  function Run(d: Dashboard, events: seq<Event>): Dashboard
    decreases |events|
  {
    if |events| == 0 then d else Run(Step(d, events[0]), events[1..])
  }

  /** Along any playable run the phase never goes back: in particular `submitted` is never reset. */
  lemma {:induction false} PhaseNeverDecreases(d: Dashboard, events: seq<Event>)
    requires Consistent(d) && Playable(d, events)
    ensures Consistent(Run(d, events)) && Phase(d) <= Phase(Run(d, events))
    ensures d.submitted ==> Run(d, events) == d
    decreases |events|
  {
    if |events| > 0 {
      StepAdvancesPhase(d, events[0]);
      PhaseNeverDecreases(Step(d, events[0]), events[1..]);
    }
  }

  /** Reaching the success view takes an accepted submission followed by its timer; without acceptance it never appears. */
  lemma {:induction false} SuccessNeedsAcceptance(d: Dashboard, events: seq<Event>)
    requires Consistent(d) && !d.submitting && !d.submitted && Playable(d, events)
    requires forall i :: 0 <= i < |events| ==> events[i] != Submit(true)
    ensures Render(Run(d, events)) != SuccessView
    decreases |events|
  {
    if |events| > 0 {
      assert events[0] != Submit(true);
      var d' := Step(d, events[0]);
      assert forall i :: 0 <= i < |events[1..]| ==> events[1..][i] == events[i + 1];
      SuccessNeedsAcceptance(d', events[1..]);
    }
  }

  /**
   * Accepting the prompt always reaches the success view, whichever prompt
   * was shown: an incomplete ballot goes through just like a complete one,
   * and the votes are sent as they stand.
   */
  lemma AcceptedSubmissionSucceeds(d: Dashboard)
    requires !d.submitting && !d.submitted
    ensures Playable(d, [Submit(true), TimerFired])
    ensures var r := Run(d, [Submit(true), TimerFired]);
            Render(r) == SuccessView && r.votes == d.votes
  {
    var events := [Submit(true), TimerFired];
    assert events[1..] == [TimerFired] && events[1..][1..] == [];
  }
}
