/**
 * The badge rule evaluator: four independent threshold rules applied to a
 * group record, producing the list of badges the group qualifies for, in
 * the fixed order in which the rules are checked.
 */
module BadgeService {
  import opened Common

  datatype BadgeId = MemoryCount20 | MemoryStreak7 | SpaceReceived10000 | LikeCount10000

  /** The string token a badge is reported as. */
  function Token(b: BadgeId): string
  {
    match b
    case MemoryCount20 => "memory-count-20"
    case MemoryStreak7 => "memory-streak-7"
    case SpaceReceived10000 => "space-received-10000"
    case LikeCount10000 => "like-count-10000"
  }

  /** What the `memories` property of a group holds: nothing (missing or
      another falsy value), an array of the given length, or some truthy
      value that is not an array. */
  datatype Memories = MemoriesMissing | MemoriesArray(length: nat) | MemoriesNotArray

  /** The argument handed to the evaluator: a null or non-object value, or an
      object whose numeric statistics may be missing (`None`). */
  datatype GroupArg =
    | NotAnObject
    | GroupRecord(memories: Memories, memoryStreak: Option<int>,
                  spaceReceived: Option<int>, likeCount: Option<int>)

  /** `stat || 0` for a numeric property. */
  function OrZero(stat: Option<int>): int
  {
    if stat.Some? then stat.value else 0
  }

  /** The rule table, in the order the rules are checked. */
  const RuleOrder: seq<BadgeId> := [MemoryCount20, MemoryStreak7, SpaceReceived10000, LikeCount10000]

  /** A badge's position in the rule table. */
  function Rank(b: BadgeId): nat
  {
    match b
    case MemoryCount20 => 0
    case MemoryStreak7 => 1
    case SpaceReceived10000 => 2
    case LikeCount10000 => 3
  }

  /** The threshold a badge's rule compares its statistic against. */
  function Threshold(b: BadgeId): int
  {
    match b
    case MemoryCount20 => 20
    case MemoryStreak7 => 7
    case SpaceReceived10000 => 10000
    case LikeCount10000 => 10000
  }

  /** The statistic a badge's rule reads from a group record, with missing
      values defaulted; `None` when the rule cannot fire because `memories`
      is not an array. */
  function Statistic(g: GroupArg, b: BadgeId): Option<int>
    requires g.GroupRecord?
  {
    match b
    case MemoryCount20 =>
      (match g.memories
       case MemoriesMissing => Some(0)
       case MemoriesArray(n) => Some(n)
       case MemoriesNotArray => None)
    case MemoryStreak7 => Some(OrZero(g.memoryStreak))
    case SpaceReceived10000 => Some(OrZero(g.spaceReceived))
    case LikeCount10000 => Some(OrZero(g.likeCount))
  }

  /** Whether the rule for badge `b` fires for `g`, read off the table. */
  predicate Qualifies(g: GroupArg, b: BadgeId)
  {
    g.GroupRecord? && Statistic(g, b).Some? && Statistic(g, b).value >= Threshold(b)
  }

  /** The rules of `rules` that fire for `g`, in table order. */
  function SelectRules(rules: seq<BadgeId>, g: GroupArg): seq<BadgeId>
  {
    if rules == [] then []
    else (if Qualifies(g, rules[0]) then [rules[0]] else []) + SelectRules(rules[1..], g)
  }

  /** The table-driven reference for the evaluator: every rule of the table
      that fires, in table order. */
  function Earned(g: GroupArg): seq<BadgeId>
  {
    SelectRules(RuleOrder, g)
  }

  /** Strictly increasing rank: the badges appear in rule order, each once. */
  predicate InRuleOrder(badges: seq<BadgeId>)
  {
    forall i, j :: 0 <= i < j < |badges| ==> Rank(badges[i]) < Rank(badges[j])
  }

  /** The evaluator as the service writes it: validate, default the missing
      statistics, then push one badge per rule that fires. */
  method CheckAndAssignBadges(group: GroupArg) returns (badges: seq<BadgeId>)
    ensures group.NotAnObject? ==> badges == []
    ensures MemoryCount20 in badges <==>
              group.GroupRecord? && group.memories.MemoriesArray? && group.memories.length >= 20
    ensures MemoryStreak7 in badges <==> group.GroupRecord? && OrZero(group.memoryStreak) >= 7
    ensures SpaceReceived10000 in badges <==> group.GroupRecord? && OrZero(group.spaceReceived) >= 10000
    ensures LikeCount10000 in badges <==> group.GroupRecord? && OrZero(group.likeCount) >= 10000
    ensures InRuleOrder(badges) && |badges| <= |RuleOrder|
    ensures badges == Earned(group)
  {
    badges := [];
    if group.NotAnObject? {
      return;
    }
    var memories := if group.memories.MemoriesMissing? then MemoriesArray(0) else group.memories;
    var memoryStreak := OrZero(group.memoryStreak);
    var spaceReceived := OrZero(group.spaceReceived);
    var likeCount := OrZero(group.likeCount);
    ghost var e1 := if Qualifies(group, MemoryCount20) then [MemoryCount20] else [];
    ghost var e2 := if Qualifies(group, MemoryStreak7) then [MemoryStreak7] else [];
    ghost var e3 := if Qualifies(group, SpaceReceived10000) then [SpaceReceived10000] else [];
    ghost var e4 := if Qualifies(group, LikeCount10000) then [LikeCount10000] else [];
    EarnedByRule(group);

    if memories.MemoriesArray? && memories.length >= 20 {
      badges := badges + [MemoryCount20];
    }
    assert badges == e1;
    if memoryStreak >= 7 {
      badges := badges + [MemoryStreak7];
    }
    assert badges == e1 + e2;
    if spaceReceived >= 10000 {
      badges := badges + [SpaceReceived10000];
    }
    assert badges == e1 + e2 + e3;
    if likeCount >= 10000 {
      badges := badges + [LikeCount10000];
    }
    assert badges == e1 + e2 + e3 + e4;
    EarnedRules(group);
    EarnedDistinct(group);
  }

  /** The table-driven reference unrolled: one optional entry per rule. */
  lemma EarnedByRule(g: GroupArg)
    ensures Earned(g) ==
              (if Qualifies(g, MemoryCount20) then [MemoryCount20] else [])
              + (if Qualifies(g, MemoryStreak7) then [MemoryStreak7] else [])
              + (if Qualifies(g, SpaceReceived10000) then [SpaceReceived10000] else [])
              + (if Qualifies(g, LikeCount10000) then [LikeCount10000] else [])
  {
    var r3 := [LikeCount10000];
    var r2 := [SpaceReceived10000, LikeCount10000];
    var r1 := [MemoryStreak7, SpaceReceived10000, LikeCount10000];
    assert r3[1..] == [] && r2[1..] == r3 && r1[1..] == r2 && RuleOrder[1..] == r1;
    assert SelectRules(r3, g) == (if Qualifies(g, LikeCount10000) then [LikeCount10000] else []);
    assert SelectRules(r2, g)
        == (if Qualifies(g, SpaceReceived10000) then [SpaceReceived10000] else []) + SelectRules(r3, g);
    assert SelectRules(r1, g)
        == (if Qualifies(g, MemoryStreak7) then [MemoryStreak7] else []) + SelectRules(r2, g);
  }

  /** Each rule of the table, stated on the group's own properties: a null or
      non-object group earns nothing, a missing `memories` counts as empty
      and missing numbers count as zero. */
  lemma EarnedRules(g: GroupArg)
    ensures g.NotAnObject? ==> Earned(g) == []
    ensures MemoryCount20 in Earned(g) <==>
              g.GroupRecord? && g.memories.MemoriesArray? && g.memories.length >= 20
    ensures MemoryStreak7 in Earned(g) <==> g.GroupRecord? && OrZero(g.memoryStreak) >= 7
    ensures SpaceReceived10000 in Earned(g) <==> g.GroupRecord? && OrZero(g.spaceReceived) >= 10000
    ensures LikeCount10000 in Earned(g) <==> g.GroupRecord? && OrZero(g.likeCount) >= 10000
  {
    SelectRulesMembers(RuleOrder, g, MemoryCount20);
    SelectRulesMembers(RuleOrder, g, MemoryStreak7);
    SelectRulesMembers(RuleOrder, g, SpaceReceived10000);
    SelectRulesMembers(RuleOrder, g, LikeCount10000);
    if g.NotAnObject? {
      EarnedByRule(g);
    }
  }

  /** Membership in a selection of rules: exactly the listed rules that fire. */
  lemma {:induction false} SelectRulesMembers(rules: seq<BadgeId>, g: GroupArg, b: BadgeId)
    ensures b in SelectRules(rules, g) <==> b in rules && Qualifies(g, b)
  {
    if rules != [] {
      SelectRulesMembers(rules[1..], g, b);
      assert b in rules <==> b == rules[0] || b in rules[1..];
    }
  }

  /** A selection of rules keeps the order of the rules it selects from, so
      a selection from an ordered table is ordered. */
  lemma {:induction false} SelectRulesOrdered(rules: seq<BadgeId>, g: GroupArg)
    requires InRuleOrder(rules)
    ensures InRuleOrder(SelectRules(rules, g))
  {
    if rules != [] {
      var rest := SelectRules(rules[1..], g);
      SelectRulesOrdered(rules[1..], g);
      forall b | b in rest ensures Rank(rules[0]) < Rank(b) {
        SelectRulesMembers(rules[1..], g, b);
        var k :| 0 <= k < |rules[1..]| && rules[1..][k] == b;
        assert rules[k + 1] == b;
      }
    }
  }

  /** A selection has no more entries than the table it selects from. */
  lemma {:induction false} SelectRulesLength(rules: seq<BadgeId>, g: GroupArg)
    ensures |SelectRules(rules, g)| <= |rules|
  {
    if rules != [] {
      SelectRulesLength(rules[1..], g);
    }
  }

  /** The evaluator's output never repeats a badge and has at most one entry
      per rule, whatever the group. */
  lemma EarnedDistinct(g: GroupArg)
    ensures InRuleOrder(Earned(g))
    ensures forall i, j :: 0 <= i < j < |Earned(g)| ==> Earned(g)[i] != Earned(g)[j]
    ensures |Earned(g)| <= 4
  {
    SelectRulesOrdered(RuleOrder, g);
    SelectRulesLength(RuleOrder, g);
    InRuleOrderDistinct(Earned(g));
  }

  /** Strictly increasing rank rules out repeats. */
  lemma InRuleOrderDistinct(badges: seq<BadgeId>)
    requires InRuleOrder(badges)
    ensures forall i, j :: 0 <= i < j < |badges| ==> badges[i] != badges[j]
  {
  }

  /** `after` is `before` with some statistics raised and none lowered. A
      `memories` value that is not an array contributes nothing, so any
      array dominates it; a missing one counts as the empty array. */
  predicate Dominates(after: GroupArg, before: GroupArg)
  {
    && after.GroupRecord? && before.GroupRecord?
    && (after.memories == before.memories
        || (after.memories.MemoriesArray? && !before.memories.MemoriesArray?)
        || (after.memories.MemoriesArray? && before.memories.MemoriesArray?
            && after.memories.length >= before.memories.length))
    && OrZero(after.memoryStreak) >= OrZero(before.memoryStreak)
    && OrZero(after.spaceReceived) >= OrZero(before.spaceReceived)
    && OrZero(after.likeCount) >= OrZero(before.likeCount)
  }

  /** Monotonicity: raising statistics never takes a badge away. */
  lemma EarnedMonotone(before: GroupArg, after: GroupArg, b: BadgeId)
    requires Dominates(after, before)
    requires b in Earned(before)
    ensures b in Earned(after)
  {
    SelectRulesMembers(RuleOrder, before, b);
    SelectRulesMembers(RuleOrder, after, b);
  }

  /** Distinct badges are reported under distinct tokens. */
  lemma TokensDistinct(a: BadgeId, b: BadgeId)
    requires a != b
    ensures Token(a) != Token(b)
  {
  }
}
