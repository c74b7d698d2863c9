/** Milestone and completion notifications
    (src/core/notifications/notificationTriggers.ts). The notification service
    that delivers them is outside this model: a call reports the celebration it
    would dispatch as its result. */
module NotificationTriggers {
  import opened Wrappers

  /** `MILESTONES`: the percentages celebrated once per goal. */
  const Milestones: seq<int> := [25, 50, 75]

  /** What the notification service is asked to send. */
  datatype Celebration = CompletionCelebration | MilestoneCelebration(milestone: int)

  /** `Math.floor((currentPage / totalPages) * 100)`, computed exactly. */
  function Percentage(currentPage: int, totalPages: PositiveInt): int
  {
    (currentPage * 100) / totalPages
  }

  /** The percentage is the floor of the exact ratio. */
  lemma PercentageIsFloor(currentPage: int, totalPages: PositiveInt)
    ensures var p := Percentage(currentPage, totalPages);
      p * totalPages <= currentPage * 100 < (p + 1) * totalPages
  {
  }

  /** A flag that was never written is `undefined`, which reads as false. */
  predicate IsSet(flags: map<int, bool>, milestone: int)
  {
    milestone in flags && flags[milestone]
  }

  /** The first milestone at index `i` or later that the percentage has reached
      and whose flag is unset. */
  function NextMilestoneFrom(percentage: int, flags: map<int, bool>, i: nat): (r: Option<int>)
    requires i <= |Milestones|
    decreases |Milestones| - i
    ensures r.Some? <==> exists k :: i <= k < |Milestones| && percentage >= Milestones[k] && !IsSet(flags, Milestones[k])
    ensures r.Some? ==>
              exists k :: i <= k < |Milestones| && r.value == Milestones[k]
                          && percentage >= Milestones[k] && !IsSet(flags, Milestones[k])
                          && forall j :: i <= j < k ==> percentage < Milestones[j] || IsSet(flags, Milestones[j])
  {
    if i == |Milestones| then None
    else if percentage >= Milestones[i] && !IsSet(flags, Milestones[i]) then Some(Milestones[i])
    else NextMilestoneFrom(percentage, flags, i + 1)
  }

  /** The milestone a call celebrates: the first of 25, 50, 75 reached and not yet sent. */
  function NextMilestone(percentage: int, flags: map<int, bool>): Option<int>
  {
    NextMilestoneFrom(percentage, flags, 0)
  }

  /** Passing several thresholds at once yields only the lowest unsent one: the
      milestone reached and unsent below which every milestone is either sent or
      not reached. */
  lemma LowestUnsentFirst(percentage: int, flags: map<int, bool>, k: int)
    requires 0 <= k < |Milestones|
    requires percentage >= Milestones[k] && !IsSet(flags, Milestones[k])
    requires forall j :: 0 <= j < k ==> percentage < Milestones[j] || IsSet(flags, Milestones[j])
    ensures NextMilestone(percentage, flags) == Some(Milestones[k])
  {
    var r := NextMilestone(percentage, flags);
    var k' :| 0 <= k' < |Milestones| && r.value == Milestones[k']
              && percentage >= Milestones[k'] && !IsSet(flags, Milestones[k'])
              && forall j :: 0 <= j < k' ==> percentage < Milestones[j] || IsSet(flags, Milestones[j]);
    assert k' == k;
  }

  /** What one progress check does: nothing when notifications or milestones are
      off; the completion celebration, with no flag touched, once the last page is
      reached (no flag guards it, so it repeats on every such check); otherwise
      the next unsent milestone reached, whose flag is then set. */
  ghost predicate CheckOutcome(currentPage: int, totalPages: PositiveInt,
                               notificationsEnabled: bool, milestonesEnabled: bool,
                               before: map<int, bool>, after: map<int, bool>, sent: Option<Celebration>)
  {
    if !notificationsEnabled || !milestonesEnabled then
      sent == None && after == before
    else if currentPage >= totalPages then
      sent == Some(CompletionCelebration) && after == before
    else
      match NextMilestone(Percentage(currentPage, totalPages), before)
      case None => sent == None && after == before
      case Some(m) => sent == Some(MilestoneCelebration(m)) && after == before[m := true]
  }

  /** The module-level `milestonesSent` record. */
  class MilestoneTracker {
    var milestonesSent: map<int, bool>

    predicate Sent(milestone: int)
      reads this
    {
      IsSet(milestonesSent, milestone)
    }

    constructor ()
      ensures milestonesSent == map[]
      ensures forall m :: !Sent(m)
    {
      milestonesSent := map[];
    }

    /** `resetMilestones`: clears the three flags. */
    method ResetMilestones()
      modifies this
      ensures milestonesSent == old(milestonesSent)[25 := false][50 := false][75 := false]
      ensures forall i :: 0 <= i < |Milestones| ==> !Sent(Milestones[i])
    {
      var i := 0;
      while i < |Milestones|
        invariant 0 <= i <= |Milestones|
        invariant milestonesSent == if i == 0 then old(milestonesSent)
                                    else if i == 1 then old(milestonesSent)[25 := false]
                                    else if i == 2 then old(milestonesSent)[25 := false][50 := false]
                                    else old(milestonesSent)[25 := false][50 := false][75 := false]
      {
        milestonesSent := milestonesSent[Milestones[i] := false];
        i := i + 1;
      }
    }

    /** `checkProgressNotifications`. */
    method CheckProgressNotifications(currentPage: int, totalPages: PositiveInt,
                                      notificationsEnabled: bool, milestonesEnabled: bool)
      returns (sent: Option<Celebration>)
      modifies this
      ensures CheckOutcome(currentPage, totalPages, notificationsEnabled, milestonesEnabled,
                           old(milestonesSent), milestonesSent, sent)
      // a milestone already celebrated is never celebrated again, and no flag is ever cleared here
      ensures forall m :: old(Sent(m)) ==> sent != Some(MilestoneCelebration(m)) && Sent(m)
    {
      if !notificationsEnabled || !milestonesEnabled {
        return None;
      }
      var percentage := Percentage(currentPage, totalPages);
      if currentPage >= totalPages {
        return Some(CompletionCelebration);
      }
      sent := None;
      var i := 0;
      while i < |Milestones|
        invariant 0 <= i <= |Milestones|
        invariant sent == None && milestonesSent == old(milestonesSent)
        invariant NextMilestone(percentage, milestonesSent) == NextMilestoneFrom(percentage, milestonesSent, i)
      {
        var milestone := Milestones[i];
        if percentage >= milestone && !Sent(milestone) {
          milestonesSent := milestonesSent[milestone := true];
          sent := Some(MilestoneCelebration(milestone));
          break;
        }
        i := i + 1;
      }
    }
  }

  /** Jumping from nothing straight past 75% celebrates 25% first, then 50% and
      75% on the following calls, then nothing more. */
  method JumpPastSeveralMilestones()
  {
    var tracker := new MilestoneTracker();
    var s := tracker.CheckProgressNotifications(500, 604, true, true);
    assert s == Some(MilestoneCelebration(25));
    s := tracker.CheckProgressNotifications(500, 604, true, true);
    assert s == Some(MilestoneCelebration(50));
    s := tracker.CheckProgressNotifications(500, 604, true, true);
    assert s == Some(MilestoneCelebration(75));
    s := tracker.CheckProgressNotifications(500, 604, true, true);
    assert s == None;
  }

  /** Completion is celebrated on every call that reaches the last page, and
      after a reset the 25% milestone is celebrated again. */
  method CompletionRepeatsAndResetReopens()
  {
    var tracker := new MilestoneTracker();
    var s := tracker.CheckProgressNotifications(604, 604, true, true);
    assert s == Some(CompletionCelebration);
    s := tracker.CheckProgressNotifications(604, 604, true, true);
    assert s == Some(CompletionCelebration);
    tracker.ResetMilestones();
    s := tracker.CheckProgressNotifications(200, 604, true, true);
    assert s == Some(MilestoneCelebration(25));
  }
}
