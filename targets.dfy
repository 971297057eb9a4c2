// Resolving targets (bulb names and group names) to configured bulbs:
// the `get_target_bulbs` lookup of led.py and main.py and the
// order-preserving, de-duplicating `resolve_targets` of
// backend/bulb_manager.py. A name that is a bulb is taken as that bulb even
// when a group has the same name.

module Targets {
  import opened Common

  /** Group members that are configured bulbs, in group order. */
  function Configured(known: set<string>, members: seq<string>): (s: seq<string>)
    ensures forall x :: x in s <==> x in members && x in known
  {
    if members == [] then []
    else
      var init := Configured(known, members[..|members| - 1]);
      var last := members[|members| - 1];
      assert members == members[..|members| - 1] + [last];
      if last in known then init + [last] else init
  }

  /** What one target contributes: itself when it is a bulb (checked
      first, so a bulb shadows a group of the same name), the configured
      members of a group, and nothing otherwise. */
  function Contribution(known: set<string>, groups: map<string, seq<string>>, t: string): seq<string>
  {
    if t in known then [t] else if t in groups then Configured(known, groups[t]) else []
  }

  /** All contributions in target order, duplicates included. */
  function Expand(known: set<string>, groups: map<string, seq<string>>, targets: seq<string>): seq<string>
  {
    if targets == [] then []
    else Expand(known, groups, targets[..|targets| - 1]) + Contribution(known, groups, targets[|targets| - 1])
  }

  lemma {:induction false} ExpandKnown(known: set<string>, groups: map<string, seq<string>>, targets: seq<string>)
    ensures forall x :: x in Expand(known, groups, targets) ==> x in known
  {
    if targets != [] {
      ExpandKnown(known, groups, targets[..|targets| - 1]);
    }
  }

  lemma {:induction false} ExpandCovers(known: set<string>, groups: map<string, seq<string>>, targets: seq<string>)
    ensures forall i | 0 <= i < |targets| :: targets[i] in known ==> targets[i] in Expand(known, groups, targets)
    ensures forall i, x | 0 <= i < |targets| && targets[i] !in known && targets[i] in groups ::
              x in groups[targets[i]] && x in known ==> x in Expand(known, groups, targets)
  {
    if targets != [] {
      var init := targets[..|targets| - 1];
      ExpandCovers(known, groups, init);
      forall i | 0 <= i < |targets| - 1 ensures targets[i] == init[i] { }
    }
  }

  lemma ExpandSnoc(known: set<string>, groups: map<string, seq<string>>, targets: seq<string>, t: string)
    ensures Expand(known, groups, targets + [t]) == Expand(known, groups, targets) + Contribution(known, groups, t)
  {
    assert (targets + [t])[..|targets|] == targets;
  }

  lemma ConfiguredSnoc(known: set<string>, members: seq<string>, j: nat)
    requires j < |members|
    ensures Configured(known, members[..j + 1]) ==
              Configured(known, members[..j]) + (if members[j] in known then [members[j]] else [])
  {
    assert members[..j + 1][..j] == members[..j];
  }

  /** One step of the `seen` loop: with `seen` holding the elements met so
      far and `resolved` their de-duplication, `x` is appended exactly when
      it was not seen. */
  lemma DedupStep(prefix: seq<string>, x: string, resolved: seq<string>, seen: set<string>)
    requires resolved == Dedup(prefix) && forall y :: y in seen <==> y in prefix
    ensures x in seen ==> Dedup(prefix + [x]) == resolved
    ensures x !in seen ==> Dedup(prefix + [x]) == resolved + [x]
    ensures forall y :: y in seen + {x} <==> y in prefix + [x]
  {
    DedupAppend(prefix, x);
  }

  /** A target that is neither a bulb nor a group is dropped silently. */
  lemma UnknownTargetDropped(known: set<string>, groups: map<string, seq<string>>, targets: seq<string>, t: string)
    requires t !in known && t !in groups
    ensures Dedup(Expand(known, groups, targets + [t])) == Dedup(Expand(known, groups, targets))
  {
    ExpandSnoc(known, groups, targets, t);
    assert Expand(known, groups, targets) + [] == Expand(known, groups, targets);
  }

  /** `resolve_targets` (as specified by `Dedup(Expand(...))`): each name once,
      only configured bulbs, every bulb named directly or through a group,
      in the order of first mention. */
  lemma ResolvedFacts(known: set<string>, groups: map<string, seq<string>>, targets: seq<string>)
    ensures var res := Dedup(Expand(known, groups, targets));
      NoDup(res) &&
      (forall x :: x in res ==> x in known) &&
      (forall i | 0 <= i < |targets| :: targets[i] in known ==> targets[i] in res) &&
      (forall i, x | 0 <= i < |targets| && targets[i] !in known && targets[i] in groups ::
         x in groups[targets[i]] && x in known ==> x in res)
    ensures var e := Expand(known, groups, targets); var res := Dedup(e);
      forall i, j | 0 <= i < j < |res| :: res[i] in e && res[j] in e && FirstIndex(e, res[i]) < FirstIndex(e, res[j])
  {
    var e := Expand(known, groups, targets);
    DedupElements(e);
    ExpandKnown(known, groups, targets);
    ExpandCovers(known, groups, targets);
    DedupFirstOccurrenceOrder(e);
  }
}
