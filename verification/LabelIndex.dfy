// The inverted label index and the direct match that it must agree with.
module LabelIndex {
  import opened Models

  type Labels = map<string, string>

  function Get(labels: Labels, key: string): string {
    if key in labels then labels[key] else ""
  }

  /** A missing label reads as the empty string. */
  predicate LabelsMatch(selector: Labels, labels: Labels) {
    forall key :: key in selector ==> Get(labels, key) == selector[key]
  }

  method LabelsMatchLoop(selector: Labels, labels: Labels) returns (matches: bool)
    ensures matches == LabelsMatch(selector, labels)
  {
    var keys := selector.Keys;
    while keys != {}
      invariant keys <= selector.Keys
      invariant forall key :: key in selector && key !in keys ==> Get(labels, key) == selector[key]
      decreases |keys|
    {
      var key :| key in keys;
      if Get(labels, key) != selector[key] {
        return false;
      }
      keys := keys - {key};
    }
    matches := true;
  }

  function MakeLabelIndexKey(key: string, value: string): string {
    key + "=" + value
  }

  // ----- the index: positions in the node slice stand for the nodes -----

  type Index = map<string, seq<nat>>

  /** One of the given labels of the node has this entry text. */
  ghost predicate EntryAmong(node: WorkloadNode, keys: set<string>, entry: string) {
    exists key :: key in keys && key in node.labels && MakeLabelIndexKey(key, node.labels[key]) == entry
  }

  ghost predicate HasEntry(node: WorkloadNode, entry: string) {
    EntryAmong(node, node.labels.Keys, entry)
  }

  ghost predicate Lists(index: Index, entry: string, p: nat) {
    entry in index && p in index[entry]
  }

  /** An entry lists the nodes that carry it, and exists only if some node does. */
  ghost predicate IsIndexOf(index: Index, nodes: seq<WorkloadNode>) {
    && (forall entry, p: nat :: Lists(index, entry, p) <==> p < |nodes| && HasEntry(nodes[p], entry))
    && (forall entry :: entry in index ==> index[entry] != [])
  }

  method BuildWorkloadIndex(nodes: seq<WorkloadNode>) returns (index: Index)
    ensures IsIndexOf(index, nodes)
  {
    index := map[];
    assert IsIndexOf(index, nodes[..0]) by {
      assert forall entry, p: nat :: !Lists(index, entry, p);
    }
    for p := 0 to |nodes|
      invariant IsIndexOf(index, nodes[..p])
    {
      assert forall entry :: !Lists(index, entry, p);
      index := AddNode(index, nodes[p], p);
      assert nodes[..p + 1] == nodes[..p] + [nodes[p]];
    }
    assert nodes[..|nodes|] == nodes;
  }

  method AddNode(before: Index, node: WorkloadNode, position: nat) returns (index: Index)
    requires forall entry :: entry in before ==> before[entry] != []
    ensures forall entry :: entry in index ==> index[entry] != []
    ensures forall entry, p: nat :: Lists(index, entry, p) <==>
      Lists(before, entry, p) || (p == position && HasEntry(node, entry))
  {
    index := before;
    var keys := node.labels.Keys;
    ghost var done: set<string> := {};
    while keys != {}
      invariant done + keys == node.labels.Keys && done !! keys
      invariant forall entry :: entry in index ==> index[entry] != []
      invariant forall entry, p: nat :: Lists(index, entry, p) <==>
        Lists(before, entry, p) || (p == position && EntryAmong(node, done, entry))
      decreases |keys|
    {
      var key :| key in keys;
      var entry := MakeLabelIndexKey(key, node.labels[key]);
      var next := index[entry := (if entry in index then index[entry] else []) + [position]];
      forall e
        ensures EntryAmong(node, done + {key}, e) <==> EntryAmong(node, done, e) || e == entry
      {
        assert key in done + {key};
      }
      forall e, p
        ensures Lists(next, e, p) <==> Lists(index, e, p) || (e == entry && p == position)
      {
      }
      index, keys, done := next, keys - {key}, done + {key};
    }
    assert done == node.labels.Keys;
  }

  // ----- looking a selector up -----

  /** Every given label of the selector has an entry that lists the node. */
  ghost predicate ListedUnder(index: Index, selector: Labels, keys: set<string>, p: nat) {
    forall key :: key in keys && key in selector ==> Lists(index, MakeLabelIndexKey(key, selector[key]), p)
  }

  ghost predicate Matched(matches: set<nat>, index: Index, selector: Labels, done: set<string>) {
    forall p: nat :: p in matches <==> ListedUnder(index, selector, done, p)
  }

  /** Narrows the matches label by label; the program lists them in no particular order, each
      once. They are the nodes that every label's entry lists, and none for no labels. */
  method IndexLabelMatch(selector: Labels, index: Index) returns (matches: set<nat>)
    ensures if selector == map[] then matches == {} else Matched(matches, index, selector, selector.Keys)
  {
    if selector == map[] {
      return {};
    }
    matches := NarrowAll(selector, index);
  }

  /** After some of the selector's keys, while others are left. */
  ghost predicate Narrowed(matches: set<nat>, first: bool, index: Index, selector: Labels, left: set<string>) {
    && left <= selector.Keys && (first <==> left == selector.Keys)
    && (!first ==> Matched(matches, index, selector, selector.Keys - left))
  }

  method NarrowAll(selector: Labels, index: Index) returns (matches: set<nat>)
    requires selector != map[]
    ensures Matched(matches, index, selector, selector.Keys)
  {
    var keys := selector.Keys;
    var first := true;
    matches := {};
    assert Narrowed(matches, first, index, selector, keys);
    hide Matched, Narrowed;
    while keys != {}
      invariant Narrowed(matches, first, index, selector, keys)
      decreases |keys|
    {
      var key :| key in keys;
      matches := Narrow(selector, index, matches, first, keys, key);
      keys, first := keys - {key}, false;
      if matches == {} {
        NoneSurvives(index, selector, keys);
        return;
      }
    }
    AllNarrowed(matches, first, index, selector);
  }

  lemma AllNarrowed(matches: set<nat>, first: bool, index: Index, selector: Labels)
    requires selector != map[] && Narrowed(matches, first, index, selector, {})
    ensures Matched(matches, index, selector, selector.Keys)
  {
    assert selector.Keys - {} == selector.Keys;
  }

  /** One label: its listed nodes, cut down to the matches so far. A missing entry lists none. */
  method Narrow(
      selector: Labels, index: Index, matches: set<nat>, first: bool, ghost left: set<string>, key: string)
    returns (next: set<nat>)
    requires key in left && Narrowed(matches, first, index, selector, left)
    ensures Narrowed(next, false, index, selector, left - {key})
  {
    ghost var done := selector.Keys - left;
    var entry := MakeLabelIndexKey(key, selector[key]);
    var listed := if entry in index then set p | p in index[entry] else {};
    assert forall p: nat :: p in listed <==> Lists(index, entry, p);
    assert selector.Keys - (left - {key}) == done + {key};
    hide Lists, MakeLabelIndexKey;
    forall p: nat
      ensures ListedUnder(index, selector, done + {key}, p) <==>
        ListedUnder(index, selector, done, p) && Lists(index, entry, p)
    {
    }
    next := if first then listed else matches * listed;
  }

  lemma NoneSurvives(index: Index, selector: Labels, left: set<string>)
    requires Narrowed({}, false, index, selector, left)
    ensures Matched({}, index, selector, selector.Keys)
  {
    hide Lists, MakeLabelIndexKey;
    forall p: nat
      ensures !ListedUnder(index, selector, selector.Keys, p)
    {
      assert p !in {} && !ListedUnder(index, selector, selector.Keys - left, p);
    }
  }

  /** The node carries the entry text of every label of the selector. */
  ghost predicate HasAllEntries(node: WorkloadNode, selector: Labels) {
    forall key :: key in selector ==> HasEntry(node, MakeLabelIndexKey(key, selector[key]))
  }

  /** Over the built index, a non-empty lookup finds exactly the nodes with all the entries. */
  lemma LookupFindsEntries(index: Index, nodes: seq<WorkloadNode>, selector: Labels, matches: set<nat>)
    requires IsIndexOf(index, nodes) && selector != map[] && Matched(matches, index, selector, selector.Keys)
    ensures forall p: nat :: p in matches <==> p < |nodes| && HasAllEntries(nodes[p], selector)
  {
    hide HasEntry, MakeLabelIndexKey;
    forall p: nat
      ensures ListedUnder(index, selector, selector.Keys, p) <==> p < |nodes| && HasAllEntries(nodes[p], selector)
    {
      if p >= |nodes| {
        var key :| key in selector.Keys;
        assert !Lists(index, MakeLabelIndexKey(key, selector[key]), p);
      }
    }
  }

  // ----- when the index agrees with the direct match -----

  predicate NoEquals(s: string) {
    '=' !in s
  }

  lemma KeyEndsAtEquals(key: string, value: string)
    requires NoEquals(key)
    ensures forall i :: 0 <= i < |key| ==> MakeLabelIndexKey(key, value)[i] != '='
  {
    assert forall i :: 0 <= i < |key| ==> key[i] in key;
  }

  /** Without '=' in the keys an entry text determines the label. */
  lemma EntryIsInjective(key: string, value: string, key': string, value': string)
    requires NoEquals(key) && NoEquals(key')
    requires MakeLabelIndexKey(key, value) == MakeLabelIndexKey(key', value')
    ensures key == key' && value == value'
  {
    var entry, n, m := MakeLabelIndexKey(key, value), |key|, |key'|;
    assert entry[n] == '=' && entry[m] == '=';
    KeyEndsAtEquals(key, value);
    KeyEndsAtEquals(key', value');
    assert n == m;
    assert key == entry[..n] && key' == entry[..m];
    assert value == entry[n + 1..] && value' == entry[m + 1..];
  }

  ghost predicate CleanKeys(labels: Labels) {
    forall key :: key in labels ==> NoEquals(key)
  }

  ghost predicate NonEmptyValues(labels: Labels) {
    forall key :: key in labels ==> labels[key] != ""
  }

  /** On clean keys, carrying all entries is carrying all labels. */
  lemma EntriesAreLabels(node: WorkloadNode, selector: Labels)
    requires CleanKeys(selector) && CleanKeys(node.labels)
    ensures HasAllEntries(node, selector) <==>
      forall key :: key in selector ==> key in node.labels && node.labels[key] == selector[key]
  {
    forall key | key in selector
      ensures HasEntry(node, MakeLabelIndexKey(key, selector[key])) <==>
        key in node.labels && node.labels[key] == selector[key]
    {
      if HasEntry(node, MakeLabelIndexKey(key, selector[key])) {
        var k :| k in node.labels && MakeLabelIndexKey(k, node.labels[k]) == MakeLabelIndexKey(key, selector[key]);
        EntryIsInjective(k, node.labels[k], key, selector[key]);
      }
    }
  }

  /** For a non-empty selector with non-empty values and no '=' in any key, the lookup finds
      exactly the nodes that match directly. */
  lemma IndexAgreesWithMatch(index: Index, nodes: seq<WorkloadNode>, selector: Labels, matches: set<nat>)
    requires IsIndexOf(index, nodes) && Matched(matches, index, selector, selector.Keys)
    requires selector != map[] && CleanKeys(selector) && NonEmptyValues(selector)
    requires forall p: nat :: p < |nodes| ==> CleanKeys(nodes[p].labels)
    ensures forall p: nat :: p in matches <==> p < |nodes| && LabelsMatch(selector, nodes[p].labels)
  {
    LookupFindsEntries(index, nodes, selector, matches);
    hide HasAllEntries, IsIndexOf, Matched;
    forall p: nat | p < |nodes|
      ensures HasAllEntries(nodes[p], selector) <==> LabelsMatch(selector, nodes[p].labels)
    {
      EntriesAreLabels(nodes[p], selector);
    }
  }

  /** For clean keys this is the exact condition: the index and the direct match agree on every
      node precisely when the selector and all of its values are non-empty. */
  lemma AgreementNeedsNonEmpty(selector: Labels)
    requires CleanKeys(selector)
    ensures (forall node: WorkloadNode :: CleanKeys(node.labels) ==>
               ((selector != map[] && HasAllEntries(node, selector)) <==> LabelsMatch(selector, node.labels)))
            <==> (selector != map[] && NonEmptyValues(selector))
  {
    if selector != map[] && NonEmptyValues(selector) {
      forall node: WorkloadNode | CleanKeys(node.labels)
        ensures (selector != map[] && HasAllEntries(node, selector)) <==> LabelsMatch(selector, node.labels)
      {
        EntriesAreLabels(node, selector);
      }
    } else {
      var labels := map key | key in selector && selector[key] != "" :: selector[key];
      var bare := WorkloadNode("", "", "", Pod, labels, NoCidrType);
      EntriesAreLabels(bare, selector);
      assert LabelsMatch(selector, bare.labels);
      assert CleanKeys(bare.labels);
    }
  }
}
