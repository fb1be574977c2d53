/** Diffs between curriculum snapshots, and what it means to apply one. */
module CurriculumDiff {
  import opened Options
  import opened Sorting
  import opened Text

  /** `fingerprint` is empty when the node carries none; `values` are its remaining fields. */
  datatype Node = Node(
    entityType: string,
    identifier: string,
    fingerprint: string,
    isActive: bool,
    effectiveDate: Option<string>,
    title: Option<string>,
    name: Option<string>,
    values: map<string, string>)

  datatype ChangeType =
    | Added | Removed | Retired | Reactivated
    | EffectiveDateChanged | AssessmentCriteriaChanged | Renamed | Updated

  datatype Item = Item(
    changeType: ChangeType,
    entityType: string,
    entityIdentifier: string,
    oldFingerprint: string,
    newFingerprint: string,
    summary: string)

  /** The content hash of a node, whatever it is. */
  type Hash = Node -> string

  const ASSESSMENT_ENTITY_TYPES := {"rubric_foundation", "assessment_guidance", "teacher_training_notice"}

  function Key(entityType: string, identifier: string): string {
    Strip(entityType) + ":" + Strip(identifier)
  }

  function NodeKey(node: Node): string { Key(node.entityType, node.identifier) }

  function Fingerprint(node: Node, hash: Hash): string {
    if node.fingerprint != "" then node.fingerprint else hash(node)
  }

  function ChangeOf(before: Node, after: Node): ChangeType {
    if before.isActive && !after.isActive then Retired
    else if !before.isActive && after.isActive then Reactivated
    else if before.effectiveDate != after.effectiveDate then EffectiveDateChanged
    else if after.entityType in ASSESSMENT_ENTITY_TYPES then AssessmentCriteriaChanged
    else if before.title != after.title || before.name != after.name then Renamed
    else Updated
  }

  /** Nodes by key; of two nodes with one key the later stays. */
  function Index(nodes: seq<Node>): map<string, Node> {
    if nodes == [] then map[]
    else Index(nodes[..|nodes| - 1])[NodeKey(nodes[|nodes| - 1]) := nodes[|nodes| - 1]]
  }

  /** What the comparison at one key contributes: nothing, or one item. */
  function ItemsAt(before: map<string, Node>, after: map<string, Node>, key: string, hash: Hash): seq<Item> {
    if key !in before && key in after then
      var node := after[key];
      [Item(Added, node.entityType, node.identifier, "", Fingerprint(node, hash), "Added " + node.entityType + ".")]
    else if key in before && key !in after then
      var node := before[key];
      [Item(Removed, node.entityType, node.identifier, Fingerprint(node, hash), "", "Removed " + node.entityType + ".")]
    else if key !in before || Fingerprint(before[key], hash) == Fingerprint(after[key], hash) then []
    else
      var node := after[key];
      [Item(ChangeOf(before[key], node), node.entityType, node.identifier,
            Fingerprint(before[key], hash), Fingerprint(node, hash), "Updated " + node.entityType + ".")]
  }

  function ItemsFor(before: map<string, Node>, after: map<string, Node>, keys: seq<string>, hash: Hash): seq<Item> {
    if keys == [] then []
    else ItemsFor(before, after, keys[..|keys| - 1], hash) + ItemsAt(before, after, keys[|keys| - 1], hash)
  }

  ghost function Diff(older: seq<Node>, newer: seq<Node>, hash: Hash): seq<Item> {
    var before, after := Index(older), Index(newer);
    ItemsFor(before, after, SortSet(before.Keys + after.Keys), hash)
  }

  method IndexNodes(nodes: seq<Node>) returns (index: map<string, Node>)
    ensures index == Index(nodes)
  {
    index := map[];
    for i := 0 to |nodes|
      invariant index == Index(nodes[..i])
    {
      assert nodes[..i + 1][..i] == nodes[..i];
      index := index[NodeKey(nodes[i]) := nodes[i]];
    }
    assert nodes[..|nodes|] == nodes;
  }

  method DiffGraphSnapshots(older: seq<Node>, newer: seq<Node>, hash: Hash) returns (items: seq<Item>)
    ensures items == Diff(older, newer, hash)
  {
    hide Index, Fingerprint, ChangeOf, SortSet;
    var before := IndexNodes(older);
    var after := IndexNodes(newer);
    var keys := SortedList(before.Keys + after.Keys);
    items := [];
    for i := 0 to |keys|
      invariant items == ItemsFor(before, after, keys[..i], hash)
    {
      assert keys[..i + 1][..i] == keys[..i];
      var key := keys[i];
      if key !in before && key in after {
        var node := after[key];
        items := items + [Item(Added, node.entityType, node.identifier, "", Fingerprint(node, hash),
                               "Added " + node.entityType + ".")];
        continue;
      }
      if key !in after && key in before {
        var node := before[key];
        items := items + [Item(Removed, node.entityType, node.identifier, Fingerprint(node, hash), "",
                               "Removed " + node.entityType + ".")];
        continue;
      }
      if key !in before || key !in after {
        continue;
      }
      var oldFingerprint := Fingerprint(before[key], hash);
      var newFingerprint := Fingerprint(after[key], hash);
      if oldFingerprint == newFingerprint {
        continue;
      }
      items := items + [Item(ChangeOf(before[key], after[key]), after[key].entityType, after[key].identifier,
                             oldFingerprint, newFingerprint, "Updated " + after[key].entityType + ".")];
    }
    assert keys[..|keys|] == keys;
  }

  // ---- A diff is a patch ----

  /** Each key's content fingerprint. */
  function Fingerprints(index: map<string, Node>, hash: Hash): map<string, string> {
    map k | k in index :: Fingerprint(index[k], hash)
  }

  /** Apply one item to the fingerprints it was computed from; None on a conflict. */
  function ApplyItem(m: map<string, string>, item: Item): Option<map<string, string>> {
    var key := Key(item.entityType, item.entityIdentifier);
    match item.changeType
    case Added => if key in m then None else Some(m[key := item.newFingerprint])
    case Removed => if key in m && m[key] == item.oldFingerprint then Some(m - {key}) else None
    case _ => if key in m && m[key] == item.oldFingerprint then Some(m[key := item.newFingerprint]) else None
  }

  function ApplyAll(m: map<string, string>, items: seq<Item>): Option<map<string, string>> {
    if items == [] then Some(m)
    else
      match ApplyAll(m, items[..|items| - 1])
      case None => None
      case Some(m') => ApplyItem(m', items[|items| - 1])
  }

  predicate IndexedByKey(index: map<string, Node>) {
    forall k :: k in index ==> NodeKey(index[k]) == k
  }

  lemma {:induction false} IndexIsByKey(nodes: seq<Node>)
    ensures IndexedByKey(Index(nodes))
  {
    if nodes != [] {
      IndexIsByKey(nodes[..|nodes| - 1]);
    }
  }

  /** The new fingerprints at the keys already handled, the old ones elsewhere. */
  function Halfway(a: map<string, string>, b: map<string, string>, done: seq<string>): map<string, string> {
    map k | k in a.Keys + b.Keys && (if k in done then k in b else k in a) :: if k in done then b[k] else a[k]
  }

  lemma ApplyOneMore(m: map<string, string>, items: seq<Item>, more: seq<Item>)
    requires |more| <= 1
    ensures ApplyAll(m, items + more) ==
            if more == [] then ApplyAll(m, items)
            else if ApplyAll(m, items) == None then None
            else ApplyItem(ApplyAll(m, items).value, more[0])
  {
    if more == [] {
      assert items + more == items;
    } else {
      assert (items + more)[..|items|] == items;
    }
  }

  lemma HalfwayStep(a: map<string, string>, b: map<string, string>, done: seq<string>, key: string)
    requires key in a.Keys + b.Keys && key !in done
    ensures var m := Halfway(a, b, done);
            && (key in m <==> key in a) && (key in a ==> m[key] == a[key])
            && Halfway(a, b, done + [key]) == if key in b then m[key := b[key]] else m - {key}
  {
    assert forall k :: k in done + [key] <==> k in done || k == key;
  }

  lemma HalfwayDone(before: map<string, Node>, after: map<string, Node>, done: seq<string>, hash: Hash)
    requires forall k :: k in before.Keys + after.Keys ==> k in done
    ensures Halfway(Fingerprints(before, hash), Fingerprints(after, hash), done) == Fingerprints(after, hash)
  {
  }

  lemma PatchOneKey(before: map<string, Node>, after: map<string, Node>, m: map<string, string>,
                    key: string, hash: Hash)
    requires IndexedByKey(before) && IndexedByKey(after) && key in before.Keys + after.Keys
    requires (key in m <==> key in before) && (key in m ==> m[key] == Fingerprint(before[key], hash))
    ensures var items := ItemsAt(before, after, key, hash);
            Some(if key in after then m[key := Fingerprint(after[key], hash)] else m - {key})
            == if items == [] then Some(m) else ApplyItem(m, items[0])
  {
    if ItemsAt(before, after, key, hash) == [] {
      assert m[key := Fingerprint(after[key], hash)] == m;
    }
  }

  lemma AtMostOneItem(before: map<string, Node>, after: map<string, Node>, key: string, hash: Hash)
    requires key in before.Keys + after.Keys
    ensures |ItemsAt(before, after, key, hash)| <= 1
  {
  }

  predicate NoRepeats(keys: seq<string>) {
    forall i, j :: 0 <= i < j < |keys| ==> keys[i] != keys[j]
  }

  lemma NoRepeatsBefore(keys: seq<string>)
    requires NoRepeats(keys) && keys != []
    ensures var init, last := keys[..|keys| - 1], keys[|keys| - 1];
            NoRepeats(init) && last !in init && keys == init + [last]
  {
  }

  lemma PatchOneMore(before: map<string, Node>, after: map<string, Node>, done: seq<string>, key: string, hash: Hash)
    requires IndexedByKey(before) && IndexedByKey(after) && key in before.Keys + after.Keys && key !in done
    requires ApplyAll(Fingerprints(before, hash), ItemsFor(before, after, done, hash))
             == Some(Halfway(Fingerprints(before, hash), Fingerprints(after, hash), done))
    ensures ApplyAll(Fingerprints(before, hash), ItemsFor(before, after, done + [key], hash))
            == Some(Halfway(Fingerprints(before, hash), Fingerprints(after, hash), done + [key]))
  {
    hide ItemsAt, ApplyAll, ApplyItem, NodeKey, Fingerprint;
    var a, b := Fingerprints(before, hash), Fingerprints(after, hash);
    assert (done + [key])[..|done|] == done;
    HalfwayStep(a, b, done, key);
    PatchOneKey(before, after, Halfway(a, b, done), key, hash);
    hide Halfway;
    AtMostOneItem(before, after, key, hash);
    ApplyOneMore(a, ItemsFor(before, after, done, hash), ItemsAt(before, after, key, hash));
  }

  lemma {:induction false} PatchPrefix(before: map<string, Node>, after: map<string, Node>, keys: seq<string>,
                                       hash: Hash)
    requires IndexedByKey(before) && IndexedByKey(after)
    requires NoRepeats(keys) && forall k :: k in keys ==> k in before.Keys + after.Keys
    ensures ApplyAll(Fingerprints(before, hash), ItemsFor(before, after, keys, hash))
            == Some(Halfway(Fingerprints(before, hash), Fingerprints(after, hash), keys))
  {
    var a, b := Fingerprints(before, hash), Fingerprints(after, hash);
    if keys == [] {
      assert Halfway(a, b, keys) == a;
    } else {
      hide ItemsFor, ApplyAll, Halfway, Fingerprints, NoRepeats;
      var init, key := keys[..|keys| - 1], keys[|keys| - 1];
      NoRepeatsBefore(keys);
      PatchPrefix(before, after, init, hash);
      PatchOneMore(before, after, init, key, hash);
    }
  }

  lemma SortSetHasNoRepeats(s: set<string>)
    ensures NoRepeats(SortSet(s))
  {
    SortSetMembers(s);
    var t := SortSet(s);
    forall i, j | 0 <= i < j < |t|
      ensures t[i] != t[j]
    {
      assert t == t[..j] + [t[j]] + t[j + 1..];
      assert t[..j][i] == t[i];
      assert multiset(t)[t[j]] <= 1;
      assert t[i] in multiset(t[..j]);
    }
  }

  /** The diff, applied to the old fingerprints, meets no conflict and gives the new ones. */
  lemma DiffIsAPatch(older: seq<Node>, newer: seq<Node>, hash: Hash)
    ensures ApplyAll(Fingerprints(Index(older), hash), Diff(older, newer, hash))
            == Some(Fingerprints(Index(newer), hash))
  {
    var before, after := Index(older), Index(newer);
    hide Index, SortSet, ItemsFor, ApplyAll, Fingerprints, Halfway, NoRepeats;
    var keys := SortSet(before.Keys + after.Keys);
    IndexIsByKey(older);
    IndexIsByKey(newer);
    SortSetMembers(before.Keys + after.Keys);
    SortSetHasNoRepeats(before.Keys + after.Keys);
    PatchPrefix(before, after, keys, hash);
    HalfwayDone(before, after, keys, hash);
  }

  lemma {:induction false} NoItemsAnywhere(before: map<string, Node>, after: map<string, Node>, keys: seq<string>,
                                           hash: Hash)
    ensures ItemsFor(before, after, keys, hash) == [] <==>
            forall k :: k in keys ==> ItemsAt(before, after, k, hash) == []
  {
    if keys != [] {
      NoItemsAnywhere(before, after, keys[..|keys| - 1], hash);
      assert keys == keys[..|keys| - 1] + [keys[|keys| - 1]];
    }
  }

  lemma NoItemsMeansEqual(before: map<string, Node>, after: map<string, Node>, hash: Hash)
    ensures (forall k :: k in before.Keys + after.Keys ==> ItemsAt(before, after, k, hash) == [])
            <==> Fingerprints(before, hash) == Fingerprints(after, hash)
  {
    var a, b := Fingerprints(before, hash), Fingerprints(after, hash);
    if forall k :: k in before.Keys + after.Keys ==> ItemsAt(before, after, k, hash) == [] {
      assert forall k :: k in before.Keys + after.Keys ==> k in a && k in b && a[k] == b[k];
      assert a.Keys == b.Keys;
    } else if a == b {
      assert before.Keys == a.Keys == after.Keys;
      assert forall k :: k in before ==> a[k] == b[k];
    }
  }

  /** The diff is empty exactly when the fingerprints agree. */
  lemma EmptyDiffMeansEqual(older: seq<Node>, newer: seq<Node>, hash: Hash)
    ensures Diff(older, newer, hash) == [] <==> Fingerprints(Index(older), hash) == Fingerprints(Index(newer), hash)
  {
    var before, after := Index(older), Index(newer);
    SortSetMembers(before.Keys + after.Keys);
    NoItemsAnywhere(before, after, SortSet(before.Keys + after.Keys), hash);
    NoItemsMeansEqual(before, after, hash);
  }

  // ---- The order of the input does not matter ----

  ghost predicate DistinctKeys(nodes: seq<Node>) {
    forall i, j :: 0 <= i < j < |nodes| ==> NodeKey(nodes[i]) != NodeKey(nodes[j])
  }

  lemma {:induction false} IndexOfDistinct(nodes: seq<Node>)
    requires DistinctKeys(nodes)
    ensures forall i :: 0 <= i < |nodes| ==>
              NodeKey(nodes[i]) in Index(nodes) && Index(nodes)[NodeKey(nodes[i])] == nodes[i]
    ensures forall k :: k in Index(nodes) ==> Index(nodes)[k] in nodes && NodeKey(Index(nodes)[k]) == k
  {
    if nodes != [] {
      IndexOfDistinct(nodes[..|nodes| - 1]);
      assert nodes == nodes[..|nodes| - 1] + [nodes[|nodes| - 1]];
    }
  }

  lemma IndexForgetsOrder(a: seq<Node>, b: seq<Node>)
    requires DistinctKeys(a) && DistinctKeys(b) && forall n :: n in a <==> n in b
    ensures Index(a) == Index(b)
  {
    IndexOfDistinct(a);
    IndexOfDistinct(b);
    forall k
      ensures k in Index(a) <==> k in Index(b)
      ensures k in Index(a) ==> Index(a)[k] == Index(b)[k]
    {
      if k in Index(a) {
        var i :| 0 <= i < |b| && b[i] == Index(a)[k];
      }
      if k in Index(b) {
        var i :| 0 <= i < |a| && a[i] == Index(b)[k];
      }
    }
  }

  lemma DiffForgetsOrder(older: seq<Node>, older': seq<Node>, newer: seq<Node>, newer': seq<Node>, hash: Hash)
    requires DistinctKeys(older) && DistinctKeys(older') && DistinctKeys(newer) && DistinctKeys(newer')
    requires (forall n :: n in older <==> n in older') && (forall n :: n in newer <==> n in newer')
    ensures Diff(older, newer, hash) == Diff(older', newer', hash)
  {
    IndexForgetsOrder(older, older');
    IndexForgetsOrder(newer, newer');
  }

  // ---- Swapping the snapshots mirrors the diff ----

  /** A node whose identity is written the way it is compared. */
  predicate Tidy(node: Node) {
    && Strip(node.entityType) == node.entityType && Strip(node.identifier) == node.identifier
    && ':' !in node.entityType
  }

  lemma TidyKeysAreIdentities(a: Node, b: Node)
    requires Tidy(a) && Tidy(b) && NodeKey(a) == NodeKey(b)
    ensures a.entityType == b.entityType && a.identifier == b.identifier
  {
    var k, l, m := NodeKey(a), |a.entityType|, |b.entityType|;
    assert k[l] == ':' && k[m] == ':';
    assert k[..l] == a.entityType && k[..m] == b.entityType;
    assert forall i :: 0 <= i < l ==> k[i] != ':' by {
      assert forall i :: 0 <= i < l ==> k[i] == a.entityType[i];
    }
    assert forall i :: 0 <= i < m ==> k[i] != ':' by {
      assert forall i :: 0 <= i < m ==> k[i] == b.entityType[i];
    }
    assert k[l + 1..] == a.identifier && k[m + 1..] == b.identifier;
  }

  function Opposite(c: ChangeType): ChangeType {
    match c
    case Added => Removed
    case Removed => Added
    case Retired => Reactivated
    case Reactivated => Retired
    case _ => c
  }

  function Mirror(item: Item): Item {
    var c := Opposite(item.changeType);
    Item(c, item.entityType, item.entityIdentifier, item.newFingerprint, item.oldFingerprint,
         (if c == Added then "Added " else if c == Removed then "Removed " else "Updated ") + item.entityType + ".")
  }

  function MirrorAll(items: seq<Item>): seq<Item> {
    if items == [] then [] else MirrorAll(items[..|items| - 1]) + [Mirror(items[|items| - 1])]
  }

  lemma MirrorOneMore(items: seq<Item>, more: seq<Item>)
    requires |more| <= 1
    ensures MirrorAll(items + more) == MirrorAll(items) + (if more == [] then [] else [Mirror(more[0])])
  {
    if more == [] {
      assert items + more == items;
    } else {
      assert (items + more)[..|items|] == items;
    }
  }

  predicate TidyIndex(index: map<string, Node>) {
    forall k :: k in index ==> NodeKey(index[k]) == k && Tidy(index[k])
  }

  lemma MirrorAt(before: map<string, Node>, after: map<string, Node>, key: string, hash: Hash)
    requires TidyIndex(before) && TidyIndex(after)
    ensures var items := ItemsAt(before, after, key, hash);
            ItemsAt(after, before, key, hash) == if items == [] then [] else [Mirror(items[0])]
  {
    if key in before && key in after {
      TidyKeysAreIdentities(before[key], after[key]);
    }
  }

  lemma {:induction false} MirrorFor(before: map<string, Node>, after: map<string, Node>, keys: seq<string>, hash: Hash)
    requires TidyIndex(before) && TidyIndex(after)
    ensures ItemsFor(after, before, keys, hash) == MirrorAll(ItemsFor(before, after, keys, hash))
  {
    if keys != [] {
      var init, key := keys[..|keys| - 1], keys[|keys| - 1];
      MirrorFor(before, after, init, hash);
      MirrorAt(before, after, key, hash);
      MirrorOneMore(ItemsFor(before, after, init, hash), ItemsAt(before, after, key, hash));
    }
  }

  lemma {:induction false} IndexOfTidy(nodes: seq<Node>)
    requires forall n :: n in nodes ==> Tidy(n)
    ensures TidyIndex(Index(nodes))
  {
    if nodes != [] {
      assert forall n :: n in nodes[..|nodes| - 1] ==> n in nodes;
      IndexOfTidy(nodes[..|nodes| - 1]);
      assert nodes[|nodes| - 1] in nodes;
    }
  }

  lemma SwappingMirrors(older: seq<Node>, newer: seq<Node>, hash: Hash)
    requires (forall n :: n in older ==> Tidy(n)) && (forall n :: n in newer ==> Tidy(n))
    ensures Diff(newer, older, hash) == MirrorAll(Diff(older, newer, hash))
  {
    var before, after := Index(older), Index(newer);
    IndexOfTidy(older);
    IndexOfTidy(newer);
    assert before.Keys + after.Keys == after.Keys + before.Keys;
    MirrorFor(before, after, SortSet(before.Keys + after.Keys), hash);
  }

  // ---- Which removals are reported ----

  predicate SameIdentity(a: Node, b: Node) {
    a.entityType == b.entityType && a.identifier == b.identifier
  }

  predicate ReportsRemoval(item: Item, n: Node) {
    item.changeType == Removed && item.entityType == n.entityType && item.entityIdentifier == n.identifier
  }

  ghost predicate RemovalReported(older: seq<Node>, newer: seq<Node>, n: Node, hash: Hash) {
    exists item :: item in Diff(older, newer, hash) && ReportsRemoval(item, n)
  }

  lemma {:induction false} ItemsComeFromKeys(before: map<string, Node>, after: map<string, Node>, keys: seq<string>,
                                             hash: Hash, item: Item)
    ensures item in ItemsFor(before, after, keys, hash) <==>
            exists k :: k in keys && item in ItemsAt(before, after, k, hash)
  {
    if keys != [] {
      var init, last := keys[..|keys| - 1], keys[|keys| - 1];
      ItemsComeFromKeys(before, after, init, hash, item);
      assert keys == init + [last];
      assert last in keys;
    }
  }

  lemma ItemsOfDiff(older: seq<Node>, newer: seq<Node>, hash: Hash, item: Item)
    ensures var before, after := Index(older), Index(newer);
            item in Diff(older, newer, hash) <==>
            exists k :: k in before.Keys + after.Keys && item in ItemsAt(before, after, k, hash)
  {
    hide ItemsAt, ItemsFor, SortSet, Index;
    var before, after := Index(older), Index(newer);
    var keys := SortSet(before.Keys + after.Keys);
    SortSetMembers(before.Keys + after.Keys);
    ItemsComeFromKeys(before, after, keys, hash, item);
    assert forall k :: k in keys <==> k in before.Keys + after.Keys;
  }

  lemma {:induction false} IndexMembers(nodes: seq<Node>, key: string)
    ensures key in Index(nodes) <==> exists n :: n in nodes && NodeKey(n) == key
    ensures key in Index(nodes) ==> Index(nodes)[key] in nodes && NodeKey(Index(nodes)[key]) == key
  {
    if nodes != [] {
      var init, last := nodes[..|nodes| - 1], nodes[|nodes| - 1];
      IndexMembers(init, key);
      assert nodes == init + [last];
      assert last in nodes;
    }
  }

  /**
   The removal of an old node is reported exactly when no new node has its key and, of
   the old nodes with its key, the last has its identity: the others are shadowed.
   */
  lemma RemovalIsReported(older: seq<Node>, newer: seq<Node>, n: Node, hash: Hash)
    requires n in older
    ensures NodeKey(n) in Index(older)
    ensures RemovalReported(older, newer, n, hash) <==>
            NodeKey(n) !in Index(newer) && SameIdentity(Index(older)[NodeKey(n)], n)
  {
    var before, after, key := Index(older), Index(newer), NodeKey(n);
    IndexMembers(older, key);
    IndexIsByKey(older);
    if RemovalReported(older, newer, n, hash) {
      var item :| item in Diff(older, newer, hash) && ReportsRemoval(item, n);
      ItemsOfDiff(older, newer, hash, item);
      var k :| k in before.Keys + after.Keys && item in ItemsAt(before, after, k, hash);
      OnlyRemovalsSayRemoved(before, after, k, hash);
      assert NodeKey(before[k]) == k && SameIdentity(before[k], n);
    }
    if key !in after && SameIdentity(before[key], n) {
      var item := ItemsAt(before, after, key, hash)[0];
      ItemsOfDiff(older, newer, hash, item);
      assert item in ItemsAt(before, after, key, hash) && ReportsRemoval(item, n);
    }
  }

  lemma OnlyRemovalsSayRemoved(before: map<string, Node>, after: map<string, Node>, k: string, hash: Hash)
    requires k in before.Keys + after.Keys
    ensures forall item :: item in ItemsAt(before, after, k, hash) && item.changeType == Removed ==>
              && k in before && k !in after
              && item.entityType == before[k].entityType && item.entityIdentifier == before[k].identifier
  {
  }

  /** With distinct old keys nothing is shadowed. */
  lemma DistinctRemovalIsReported(older: seq<Node>, newer: seq<Node>, n: Node, hash: Hash)
    requires DistinctKeys(older) && n in older
    ensures RemovalReported(older, newer, n, hash) <==> forall m :: m in newer ==> NodeKey(m) != NodeKey(n)
  {
    RemovalIsReported(older, newer, n, hash);
    IndexOfDistinct(older);
    var i :| 0 <= i < |older| && older[i] == n;
    IndexMembers(newer, NodeKey(n));
  }

  /** Between tidy snapshots a removal is reported exactly when no new node has the identity, repeated keys or not. */
  lemma TidyRemovalIsReported(older: seq<Node>, newer: seq<Node>, n: Node, hash: Hash)
    requires (forall m :: m in older ==> Tidy(m)) && (forall m :: m in newer ==> Tidy(m)) && n in older
    ensures RemovalReported(older, newer, n, hash) <==> forall m :: m in newer ==> !SameIdentity(m, n)
  {
    RemovalIsReported(older, newer, n, hash);
    IndexMembers(older, NodeKey(n));
    IndexMembers(newer, NodeKey(n));
    TidyKeysAreIdentities(Index(older)[NodeKey(n)], n);
    forall m | m in newer
      ensures NodeKey(m) == NodeKey(n) <==> SameIdentity(m, n)
    {
      if NodeKey(m) == NodeKey(n) {
        TidyKeysAreIdentities(m, n);
      }
    }
  }

  lemma IndexOfOne(n: Node, key: string)
    requires NodeKey(n) == key
    ensures Index([n]) == map[key := n]
  {
    assert [n][..0] == [];
  }

  lemma IndexOfTwo(a: Node, b: Node, key: string)
    requires NodeKey(a) == key == NodeKey(b)
    ensures Index([a, b]) == map[key := b]
  {
    assert [a, b][..1] == [a] && [a, b][1] == b;
    IndexOfOne(a, key);
  }

  lemma SharedKeys() returns (a: Node, b: Node)
    ensures !SameIdentity(a, b)
    ensures NodeKey(a) == "x:y:z" == NodeKey(b)
  {
    a := Node("x:y", "z", "1", true, None, None, None, map[]);
    b := Node("x", "y:z", "2", true, None, None, None, map[]);
    assert Strip("x:y") == "x:y" && Strip("z") == "z" && Strip("x") == "x" && Strip("y:z") == "y:z";
    assert a.entityType[1] == ':';
  }

  /**
   Without tidiness both halves of the condition can fail: two identities share a key
   because of a colon, and the removal of one is hidden by the other, be it among the
   old nodes or among the new ones.
   */
  lemma ColonsHideRemovals(hash: Hash) returns (a: Node, b: Node)
    ensures !SameIdentity(a, b)
    ensures Diff([a, b], [b], hash) == [] && !RemovalReported([a, b], [b], a, hash)
    ensures !RemovalReported([a, b], [], a, hash)
    ensures DistinctKeys([a]) && !RemovalReported([a], [b], a, hash)
  {
    a, b := SharedKeys();
    IndexOfOne(a, "x:y:z");
    IndexOfOne(b, "x:y:z");
    IndexOfTwo(a, b, "x:y:z");
    EmptyDiffMeansEqual([a, b], [b], hash);
    assert a in [a] && a in [a, b];
    RemovalIsReported([a, b], [b], a, hash);
    RemovalIsReported([a, b], [], a, hash);
    RemovalIsReported([a], [b], a, hash);
  }
}
