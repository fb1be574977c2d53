/** Which items a diff of two curriculum snapshots has, read off the nodes that are compared. */
module DiffLaws {
  import opened Options
  import opened Text
  import opened CurriculumDiff

  predicate HasKey(n: Node, key: string) {
    key == Strip(n.entityType) + ":" + Strip(n.identifier)
  }

  /** The node is the last of these with the key. */
  ghost predicate IsLastWith(nodes: seq<Node>, key: string, n: Node) {
    exists i :: 0 <= i < |nodes| && nodes[i] == n && HasKey(n, key) && NoneFrom(nodes, i + 1, key)
  }

  ghost predicate NoneFrom(nodes: seq<Node>, k: nat, key: string) {
    forall i :: k <= i < |nodes| ==> !HasKey(nodes[i], key)
  }

  lemma LastOfOneMore(nodes: seq<Node>, n: Node, key: string)
    ensures HasKey(n, key) ==> IsLastWith(nodes + [n], key, n)
    ensures !HasKey(n, key) ==>
              && (NoneFrom(nodes, 0, key) ==> NoneFrom(nodes + [n], 0, key))
              && forall m :: IsLastWith(nodes, key, m) ==> IsLastWith(nodes + [n], key, m)
  {
    hide HasKey;
    var more := nodes + [n];
    if HasKey(n, key) {
      assert more[|nodes|] == n && NoneFrom(more, |nodes| + 1, key);
    } else {
      forall m | IsLastWith(nodes, key, m)
        ensures IsLastWith(more, key, m)
      {
        var i :| 0 <= i < |nodes| && nodes[i] == m && HasKey(m, key) && NoneFrom(nodes, i + 1, key);
        assert more[i] == m && NoneFrom(more, i + 1, key);
      }
    }
  }

  lemma KeyIsNodeKey(n: Node, key: string)
    ensures HasKey(n, key) <==> NodeKey(n) == key
  {
  }

  /** The nodes that are compared at a key are the last of either snapshot with that key. */
  lemma {:induction false} ComparedNodes(nodes: seq<Node>, key: string)
    ensures key in Index(nodes) ==> IsLastWith(nodes, key, Index(nodes)[key])
    ensures key !in Index(nodes) ==> NoneFrom(nodes, 0, key)
  {
    if nodes != [] {
      hide HasKey, NodeKey, IsLastWith, NoneFrom;
      var n := |nodes| - 1;
      ComparedNodes(nodes[..n], key);
      KeyIsNodeKey(nodes[n], key);
      assert nodes == nodes[..n] + [nodes[n]];
      LastOfOneMore(nodes[..n], nodes[n], key);
    }
  }

  /** A node's own fingerprint, or the hash of a node that carries none. */
  predicate IsContent(n: Node, content: string, hash: Hash) {
    if n.fingerprint == "" then content == hash(n) else content == n.fingerprint
  }

  predicate IsAssessmentNode(n: Node) {
    n.entityType == "rubric_foundation" || n.entityType == "assessment_guidance"
    || n.entityType == "teacher_training_notice"
  }

  /** The first of the six kinds of change that applies. */
  predicate IsChange(t: ChangeType, before: Node, after: Node) {
    var dates, names := before.effectiveDate != after.effectiveDate,
                        before.title != after.title || before.name != after.name;
    match t
    case Retired => before.isActive && !after.isActive
    case Reactivated => !before.isActive && after.isActive
    case EffectiveDateChanged => before.isActive == after.isActive && dates
    case AssessmentCriteriaChanged => before.isActive == after.isActive && !dates && IsAssessmentNode(after)
    case Renamed => before.isActive == after.isActive && !dates && !IsAssessmentNode(after) && names
    case Updated => before.isActive == after.isActive && !dates && !IsAssessmentNode(after) && !names
    case _ => false
  }

  /** What an item says of the nodes compared at a key. */
  predicate IsItemOf(item: Item, before: Option<Node>, after: Option<Node>, hash: Hash) {
    match (before, after)
    case (None, Some(n)) =>
      && item.changeType == Added && item.entityType == n.entityType && item.entityIdentifier == n.identifier
      && item.oldFingerprint == "" && IsContent(n, item.newFingerprint, hash)
      && item.summary == "Added " + n.entityType + "."
    case (Some(n), None) =>
      && item.changeType == Removed && item.entityType == n.entityType && item.entityIdentifier == n.identifier
      && IsContent(n, item.oldFingerprint, hash) && item.newFingerprint == ""
      && item.summary == "Removed " + n.entityType + "."
    case (Some(m), Some(n)) =>
      && IsChange(item.changeType, m, n) && item.entityType == n.entityType && item.entityIdentifier == n.identifier
      && IsContent(m, item.oldFingerprint, hash) && IsContent(n, item.newFingerprint, hash)
      && item.oldFingerprint != item.newFingerprint
      && item.summary == "Updated " + n.entityType + "."
    case (None, None) => false
  }

  function At(index: map<string, Node>, key: string): Option<Node> {
    if key in index then Some(index[key]) else None
  }

  lemma ItemAtKey(before: map<string, Node>, after: map<string, Node>, key: string, hash: Hash, item: Item)
    ensures item in ItemsAt(before, after, key, hash) <==> IsItemOf(item, At(before, key), At(after, key), hash)
  {
    if key in before && key in after {
      ChangeIs(item.changeType, before[key], after[key]);
      hide ChangeOf, IsChange;
    }
  }

  lemma ChangeIs(t: ChangeType, before: Node, after: Node)
    ensures t == ChangeOf(before, after) <==> IsChange(t, before, after)
  {
  }

  /**
   The items of a diff are exactly those that hold of the nodes compared at some key: added
   or removed when one side has none, nothing when the contents agree, and otherwise the
   first of the six kinds of change that applies.
   */
  lemma DiffIsExact(older: seq<Node>, newer: seq<Node>, hash: Hash, item: Item)
    ensures item in Diff(older, newer, hash) <==>
            exists key :: IsItemOf(item, At(Index(older), key), At(Index(newer), key), hash)
  {
    hide Index, ItemsAt, Diff, IsItemOf;
    var before, after := Index(older), Index(newer);
    ItemsOfDiff(older, newer, hash, item);
    if k :| k in before.Keys + after.Keys && item in ItemsAt(before, after, k, hash) {
      ItemAtKey(before, after, k, hash, item);
    }
    if key :| IsItemOf(item, At(before, key), At(after, key), hash) {
      ItemAtKey(before, after, key, hash, item);
      SomethingIsCompared(item, before, after, key, hash);
    }
  }

  lemma SomethingIsCompared(item: Item, before: map<string, Node>, after: map<string, Node>, key: string, hash: Hash)
    requires IsItemOf(item, At(before, key), At(after, key), hash)
    ensures key in before.Keys + after.Keys
  {
  }
}
