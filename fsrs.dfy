/** The review-scheduling helpers of the FSRS integration: turning an analysis
    into a grade, creating and advancing a skill's card, and the views of how
    long until the card is due. The scheduler itself (`f.next` of the ts-fsrs
    library) and the library's empty card and date formatter are parameters. */
module Fsrs {
  import opened Numerics
  import opened LlmAnalysis

  /** The four FSRS ratings, 1 (Again) to 4 (Easy). */
  datatype Grade = Again | Hard | Good | Easy {
    function Value(): (v: int)
      ensures 1 <= v <= 4
    {
      match this
      case Again => 1
      case Hard => 2
      case Good => 3
      case Easy => 4
    }
  }

  /** The library card's learning state. */
  datatype CardState = New | Learning | Review | Relearning

  /** The fields of a library card the model needs: its due instant (ms since the
      epoch) and stability (days); the others are carried along untouched. */
  datatype Card = Card(due: int, stability: real, difficulty: real, reps: nat, lapses: nat, state: CardState)

  /** The card stored for one skill. Instants are ms since the epoch. */
  datatype FsrsCard = FsrsCard(cardId: string, skillId: string, card: Card, lastReviewed: int, nextReview: int)

  /** `f.next(card, now, grade).card`: the library's scheduling step, unknown here. */
  type Scheduler = (Card, int, Grade) -> Card

  // ---------------------------------------------------------------------------
  // analysisToGrade
  // ---------------------------------------------------------------------------

  /** `analysisToGrade`: first-match rules over feeling, skill level and confidence.
      Easy needs a smooth session at level 7 or more with confidence 0.7 or more;
      the two failing grades are reserved for a difficult session or a level below
      4, split at confidence 0.6; everything else is Good. */
  function AnalysisToGrade(a: AnalysisResult): (g: Grade)
    ensures g == Easy <==> a.feeling == "smooth" && a.skillLevel >= 7.0 && a.confidence >= 0.7
    ensures (g == Again || g == Hard) <==> a.feeling == "difficult" || a.skillLevel < 4.0
    ensures g == Again <==> (a.feeling == "difficult" || a.skillLevel < 4.0) && a.confidence < 0.6
  {
    if a.feeling == "smooth" && a.skillLevel >= 7.0 && a.confidence >= 0.7 then Easy
    else if a.feeling == "smooth" && a.skillLevel >= 5.0 then Good
    else if a.feeling == "normal" && a.skillLevel >= 4.0 then Good
    else if a.feeling == "difficult" || a.skillLevel < 4.0 then
      if a.confidence >= 0.6 then Hard else Again
    else Good
  }

  /** The rules are applied in order, the first that applies decides. */
  lemma AnalysisToGradeFirstMatch(a: AnalysisResult)
    ensures a.feeling == "smooth" && a.skillLevel >= 5.0 && !(a.skillLevel >= 7.0 && a.confidence >= 0.7)
      ==> AnalysisToGrade(a) == Good
    ensures a.feeling == "normal" && a.skillLevel >= 4.0 ==> AnalysisToGrade(a) == Good
    ensures a.feeling == "smooth" && 4.0 <= a.skillLevel < 5.0 ==> AnalysisToGrade(a) == Good
    ensures a.feeling !in {"smooth", "normal", "difficult"} && a.skillLevel >= 4.0 ==> AnalysisToGrade(a) == Good
  {
  }

  /** More confidence never lowers the grade. */
  lemma GradeMonotoneInConfidence(a: AnalysisResult, b: AnalysisResult)
    requires a.feeling == b.feeling && a.skillLevel == b.skillLevel && a.confidence <= b.confidence
    ensures AnalysisToGrade(a).Value() <= AnalysisToGrade(b).Value()
  {
  }

  /** A higher skill level never lowers the grade. */
  lemma GradeMonotoneInSkillLevel(a: AnalysisResult, b: AnalysisResult)
    requires a.feeling == b.feeling && a.confidence == b.confidence && a.skillLevel <= b.skillLevel
    ensures AnalysisToGrade(a).Value() <= AnalysisToGrade(b).Value()
  {
  }

  // ---------------------------------------------------------------------------
  // Creating and reviewing a card
  // ---------------------------------------------------------------------------

  /** `createNewFSRSCard`. The source reads the clock twice: `clockMs` is
      `Date.now()`, used in the id, and `now` is `new Date()`, used for both dates.
      `emptyCard` is the library's `createEmptyCard()`. */
  function CreateNewFsrsCard(skillId: string, clockMs: int, now: int, emptyCard: Card): (c: FsrsCard)
    ensures c.skillId == skillId && c.card == emptyCard
    ensures c.cardId == skillId + "_" + IntToString(clockMs)
    ensures c.lastReviewed == now && c.nextReview == now
    ensures IsReviewDue(c, now) && DaysUntilNextReview(c, now) == 0
  {
    FsrsCard(skillId + "_" + IntToString(clockMs), skillId, emptyCard, now, now)
  }

  /** Cards created for one skill at different clock readings get different ids. */
  lemma CardIdsDistinct(skillId: string, clock1: int, clock2: int, now1: int, now2: int, empty: Card)
    requires clock1 != clock2
    ensures CreateNewFsrsCard(skillId, clock1, now1, empty).cardId != CreateNewFsrsCard(skillId, clock2, now2, empty).cardId
  {
    var p := skillId + "_";
    var id1, id2 := p + IntToString(clock1), p + IntToString(clock2);
    if id1 == id2 {
      assert id1[|p|..] == IntToString(clock1);
      assert id2[|p|..] == IntToString(clock2);
      IntToStringInjective(clock1, clock2);
    }
  }

  /** `reviewCard`: grades the analysis, lets the scheduler advance the library
      card, and records the review instant and the new due instant. */
  function ReviewCard(c: FsrsCard, a: AnalysisResult, now: int, next: Scheduler): (r: FsrsCard)
    ensures r.cardId == c.cardId && r.skillId == c.skillId
    ensures r.card == next(c.card, now, AnalysisToGrade(a))
    ensures r.lastReviewed == now && r.nextReview == r.card.due
  {
    var grade := AnalysisToGrade(a);
    var result := next(c.card, now, grade);
    c.(card := result, lastReviewed := now, nextReview := result.due)
  }

  /** Whenever the scheduler puts the due instant after the review, the reviewed
      card is no longer due at the review instant and keeps `nextReview` after
      `lastReviewed`; the count of days left is then at least 1. */
  lemma ReviewedCardNotDue(c: FsrsCard, a: AnalysisResult, now: int, next: Scheduler)
    requires next(c.card, now, AnalysisToGrade(a)).due > now
    ensures !IsReviewDue(ReviewCard(c, a, now, next), now)
    ensures ReviewCard(c, a, now, next).nextReview > ReviewCard(c, a, now, next).lastReviewed
    ensures DaysUntilNextReview(ReviewCard(c, a, now, next), now) >= 1
  {
  }

  // ---------------------------------------------------------------------------
  // Time until due
  // ---------------------------------------------------------------------------

  /** `isReviewDue`: the due instant has been reached. */
  function IsReviewDue(c: FsrsCard, now: int): (due: bool)
    ensures due <==> CeilDays(c.nextReview - now) <= 0
  {
    c.nextReview <= now
  }

  /** `getDaysUntilNextReview`: whole days until due, rounded up, never negative. */
  function DaysUntilNextReview(c: FsrsCard, now: int): (d: nat)
    ensures d == 0 <==> IsReviewDue(c, now)
    ensures d > 0 ==> (d - 1) * MsPerDay < c.nextReview - now <= d * MsPerDay
  {
    var diffDays := CeilDays(c.nextReview - now);
    if diffDays > 0 then diffDays else 0
  }

  /** As time passes the number of days left never grows. */
  lemma DaysUntilNonIncreasing(c: FsrsCard, now1: int, now2: int)
    requires now1 <= now2
    ensures DaysUntilNextReview(c, now2) <= DaysUntilNextReview(c, now1)
  {
    CeilDaysMonotone(c.nextReview - now2, c.nextReview - now1);
  }

  /** The urgency for a given number of days left. */
  function UrgencyForDays(days: int): (u: real)
    ensures u == 1.0 || u == 0.8 || u == 0.6 || u == 0.4 || u == 0.2
    ensures u == 1.0 <==> days <= 0
    ensures u == 0.8 <==> days == 1
    ensures u == 0.6 <==> 2 <= days <= 3
    ensures u == 0.4 <==> 4 <= days <= 7
    ensures u == 0.2 <==> days > 7
  {
    if days <= 0 then 1.0
    else if days <= 1 then 0.8
    else if days <= 3 then 0.6
    else if days <= 7 then 0.4
    else 0.2
  }

  /** Fewer days left never means less urgency. */
  lemma UrgencyNonIncreasingInDays(d1: int, d2: int)
    requires d1 <= d2
    ensures UrgencyForDays(d2) <= UrgencyForDays(d1)
  {
  }

  /** `getReviewUrgency`: 1.0 once due, then 0.8, 0.6, 0.4 and 0.2 for up to 1,
      3, 7 and more days left. */
  function ReviewUrgency(c: FsrsCard, now: int): (u: real)
    ensures u == 1.0 || u == 0.8 || u == 0.6 || u == 0.4 || u == 0.2
    ensures u == 1.0 <==> IsReviewDue(c, now)
    ensures u == 0.8 <==> 0 < c.nextReview - now <= MsPerDay
    ensures u == 0.6 <==> MsPerDay < c.nextReview - now <= 3 * MsPerDay
    ensures u == 0.4 <==> 3 * MsPerDay < c.nextReview - now <= 7 * MsPerDay
    ensures u == 0.2 <==> 7 * MsPerDay < c.nextReview - now
  {
    UrgencyForDays(DaysUntilNextReview(c, now))
  }

  /** As time passes a card's urgency never drops. */
  lemma UrgencyNonDecreasingOverTime(c: FsrsCard, now1: int, now2: int)
    requires now1 <= now2
    ensures ReviewUrgency(c, now1) <= ReviewUrgency(c, now2)
  {
    DaysUntilNonIncreasing(c, now1, now2);
    UrgencyNonIncreasingInDays(DaysUntilNextReview(c, now2), DaysUntilNextReview(c, now1));
  }

  /** The label for a card that is due. */
  const DueLabel: string := "復習が必要"

  /** `formatNextReviewDate`: a due card reads as needing review, one day left as
      tomorrow, up to a week as "n日後"; further away the library's formatter
      `formatDate` renders the due instant. */
  function FormatNextReviewDate(c: FsrsCard, now: int, formatDate: int -> string): (s: string)
    ensures IsReviewDue(c, now) ==> s == DueLabel
    ensures DaysUntilNextReview(c, now) == 1 ==> s == "明日"
    ensures 2 <= DaysUntilNextReview(c, now) <= 7 ==> s == NatToString(DaysUntilNextReview(c, now)) + "日後"
    ensures DaysUntilNextReview(c, now) > 7 ==> s == formatDate(c.nextReview)
  {
    var daysUntil := DaysUntilNextReview(c, now);
    if daysUntil <= 0 then DueLabel
    else if daysUntil == 1 then "明日"
    else if daysUntil <= 7 then NatToString(daysUntil) + "日後"
    else formatDate(c.nextReview)
  }

  /** Within the first week the label tells the number of days left exactly:
      different day counts never share a label. */
  lemma FormatNextReviewDateDeterminesDays(c1: FsrsCard, c2: FsrsCard, now: int, formatDate: int -> string)
    requires DaysUntilNextReview(c1, now) <= 7 && DaysUntilNextReview(c2, now) <= 7
    requires FormatNextReviewDate(c1, now, formatDate) == FormatNextReviewDate(c2, now, formatDate)
    ensures DaysUntilNextReview(c1, now) == DaysUntilNextReview(c2, now)
  {
    var d1, d2 := DaysUntilNextReview(c1, now), DaysUntilNextReview(c2, now);
    if d1 >= 2 && d2 >= 2 {
      SuffixedDigitsInjective(d1, d2, "日後", "日後");
    }
  }

  // ---------------------------------------------------------------------------
  // getSkillMasteryLevel
  // ---------------------------------------------------------------------------

  datatype Mastery = Beginner | Intermediate | Advanced | Expert {
    function Rank(): nat {
      match this
      case Beginner => 0
      case Intermediate => 1
      case Advanced => 2
      case Expert => 3
    }
  }

  /** `getSkillMasteryLevel`: the card's stability in days, bucketed at a month
      (30), three months (90) and a year (365). */
  function SkillMasteryLevel(c: FsrsCard): (m: Mastery)
    ensures m == Beginner <==> c.card.stability < 30.0
    ensures m == Intermediate <==> 30.0 <= c.card.stability < 90.0
    ensures m == Advanced <==> 90.0 <= c.card.stability < 365.0
    ensures m == Expert <==> c.card.stability >= 365.0
  {
    var stability := c.card.stability;
    if stability >= 365.0 then Expert
    else if stability >= 90.0 then Advanced
    else if stability >= 30.0 then Intermediate
    else Beginner
  }

  /** A more stable card never has a lower mastery level. */
  lemma MasteryMonotoneInStability(c1: FsrsCard, c2: FsrsCard)
    requires c1.card.stability <= c2.card.stability
    ensures SkillMasteryLevel(c1).Rank() <= SkillMasteryLevel(c2).Rank()
  {
  }
}
