/**
 * The simulator's configuration file as an element tree, and the attribute
 * update both drivers perform on it before every run: `fsm-config` on every
 * `params` element and `random_seed` on every `experiment` element found by
 * `root.findall(".//tag")`, which searches the elements strictly below the
 * root.
 */
module ArgosConfig {
  import opened Text

  /** An XML element: its tag, its attributes and its child elements. */
  datatype Element = Element(tag: string, attrs: map<string, string>, children: seq<Element>)

  const ParamsTag := "params"
  const FsmConfigKey := "fsm-config"
  const ExperimentTag := "experiment"
  const RandomSeedKey := "random_seed"

  /** `el.set(key, value)` on `e` itself when its tag is `tag`, and likewise on every element below it. */
  function SetMatching(e: Element, tag: string, key: string, value: string): Element
    decreases e
  {
    Element(
      e.tag,
      if e.tag == tag then e.attrs[key := value] else e.attrs,
      seq(|e.children|, i requires 0 <= i < |e.children| => SetMatching(e.children[i], tag, key, value)))
  }

  /** `for el in root.findall(".//" + tag): el.set(key, value)`: every matching element strictly below the root. */
  function SetBelow(root: Element, tag: string, key: string, value: string): Element
  {
    root.(children := seq(|root.children|, i requires 0 <= i < |root.children| => SetMatching(root.children[i], tag, key, value)))
  }

  /** The two attribute updates of `modify_argos_file`, in the order the drivers perform them. */
  function Configure(root: Element, fsm: string, seed: string): Element
  {
    SetBelow(SetBelow(root, ParamsTag, FsmConfigKey, fsm), ExperimentTag, RandomSeedKey, seed)
  }

  // ---------------------------------------------------------------------
  // Addressing elements by path
  // ---------------------------------------------------------------------

  /** The element reached from `e` by following child indices `p`, if any. */
  function At(e: Element, p: seq<nat>): Option<Element>
    decreases |p|
  {
    if p == [] then Some(e)
    else if p[0] < |e.children| then At(e.children[p[0]], p[1..])
    else None
  }

  /** What a single-tag update does to one element's attributes. */
  function UpdatedAttrs(attrs: map<string, string>, elTag: string, tag: string, key: string, value: string): map<string, string>
  {
    if elTag == tag then attrs[key := value] else attrs
  }

  /**
   * `SetMatching` keeps the tree's shape and tags; the element at every
   * path gets `key := value` exactly when its tag is `tag`, and keeps its
   * other attributes.
   */
  lemma {:induction false} SetMatchingAt(e: Element, tag: string, key: string, value: string, p: seq<nat>)
    ensures var r := At(SetMatching(e, tag, key, value), p);
      && (r.Some? <==> At(e, p).Some?)
      && (r.Some? ==>
            && r.value.tag == At(e, p).value.tag
            && |r.value.children| == |At(e, p).value.children|
            && r.value.attrs == UpdatedAttrs(At(e, p).value.attrs, At(e, p).value.tag, tag, key, value))
    decreases |p|
  {
    if p != [] && p[0] < |e.children| {
      SetMatchingAt(e.children[p[0]], tag, key, value, p[1..]);
    }
  }

  /** `SetBelow` is `SetMatching` everywhere except at the root, which it leaves as it is. */
  lemma SetBelowAt(root: Element, tag: string, key: string, value: string, p: seq<nat>)
    ensures var r := At(SetBelow(root, tag, key, value), p);
      && (r.Some? <==> At(root, p).Some?)
      && (r.Some? ==>
            && r.value.tag == At(root, p).value.tag
            && |r.value.children| == |At(root, p).value.children|
            && r.value.attrs == if p == [] then root.attrs
                                else UpdatedAttrs(At(root, p).value.attrs, At(root, p).value.tag, tag, key, value))
  {
    if p != [] && p[0] < |root.children| {
      SetMatchingAt(root.children[p[0]], tag, key, value, p[1..]);
    }
  }

  /** The attributes `Configure` gives the element at a path, from its old tag and attributes. */
  function ConfiguredAttrs(attrs: map<string, string>, elTag: string, isRoot: bool, fsm: string, seed: string): map<string, string>
  {
    if isRoot then attrs
    else UpdatedAttrs(UpdatedAttrs(attrs, elTag, ParamsTag, FsmConfigKey, fsm), elTag, ExperimentTag, RandomSeedKey, seed)
  }

  /**
   * After `Configure`, every `params` element below the root carries
   * `fsm-config = fsm`, every `experiment` element below the root carries
   * `random_seed = seed`; no element is added, removed or re-tagged, and no
   * other attribute changes.
   */
  lemma ConfigureAt(root: Element, fsm: string, seed: string, p: seq<nat>)
    ensures var r := At(Configure(root, fsm, seed), p);
      && (r.Some? <==> At(root, p).Some?)
      && (r.Some? ==>
            var was := At(root, p).value;
            && r.value.tag == was.tag
            && |r.value.children| == |was.children|
            && r.value.attrs == ConfiguredAttrs(was.attrs, was.tag, p == [], fsm, seed)
            && (p != [] && was.tag == ParamsTag ==> r.value.attrs[FsmConfigKey] == fsm)
            && (p != [] && was.tag == ExperimentTag ==> r.value.attrs[RandomSeedKey] == seed)
            && (forall k :: k in was.attrs && k != FsmConfigKey && k != RandomSeedKey ==> k in r.value.attrs && r.value.attrs[k] == was.attrs[k]))
  {
    var mid := SetBelow(root, ParamsTag, FsmConfigKey, fsm);
    SetBelowAt(root, ParamsTag, FsmConfigKey, fsm, p);
    SetBelowAt(mid, ExperimentTag, RandomSeedKey, seed, p);
  }

  // ---------------------------------------------------------------------
  // Repeated updates
  // ---------------------------------------------------------------------

  /** A second update of the same attribute on the same tag overrides the first. */
  lemma {:induction false} SetMatchingOverride(e: Element, tag: string, key: string, v1: string, v2: string)
    ensures SetMatching(SetMatching(e, tag, key, v1), tag, key, v2) == SetMatching(e, tag, key, v2)
    decreases e
  {
    forall i | 0 <= i < |e.children| {
      SetMatchingOverride(e.children[i], tag, key, v1, v2);
    }
  }

  /** Updates on different tags do not interfere, so their order does not matter. */
  lemma {:induction false} SetMatchingCommute(e: Element, t1: string, k1: string, v1: string, t2: string, k2: string, v2: string)
    requires t1 != t2
    ensures SetMatching(SetMatching(e, t1, k1, v1), t2, k2, v2) == SetMatching(SetMatching(e, t2, k2, v2), t1, k1, v1)
    decreases e
  {
    forall i | 0 <= i < |e.children| {
      SetMatchingCommute(e.children[i], t1, k1, v1, t2, k2, v2);
    }
  }

  lemma SetBelowOverride(root: Element, tag: string, key: string, v1: string, v2: string)
    ensures SetBelow(SetBelow(root, tag, key, v1), tag, key, v2) == SetBelow(root, tag, key, v2)
  {
    forall i | 0 <= i < |root.children| {
      SetMatchingOverride(root.children[i], tag, key, v1, v2);
    }
  }

  lemma SetBelowCommute(root: Element, t1: string, k1: string, v1: string, t2: string, k2: string, v2: string)
    requires t1 != t2
    ensures SetBelow(SetBelow(root, t1, k1, v1), t2, k2, v2) == SetBelow(SetBelow(root, t2, k2, v2), t1, k1, v1)
  {
    forall i | 0 <= i < |root.children| {
      SetMatchingCommute(root.children[i], t1, k1, v1, t2, k2, v2);
    }
  }

  /**
   * Configuring an already configured tree is the same as configuring the
   * original: each run sees only the latest FSM and seed.
   */
  lemma ConfigureOverride(root: Element, f1: string, s1: string, f2: string, s2: string)
    ensures Configure(Configure(root, f1, s1), f2, s2) == Configure(root, f2, s2)
  {
    var p1 := SetBelow(root, ParamsTag, FsmConfigKey, f1);
    SetBelowCommute(p1, ExperimentTag, RandomSeedKey, s1, ParamsTag, FsmConfigKey, f2);
    SetBelowOverride(root, ParamsTag, FsmConfigKey, f1, f2);
    SetBelowOverride(SetBelow(root, ParamsTag, FsmConfigKey, f2), ExperimentTag, RandomSeedKey, s1, s2);
  }

  // ---------------------------------------------------------------------
  // Files without the expected elements
  // ---------------------------------------------------------------------

  /** Some element at or below `e` has tag `tag`. */
  predicate Occurs(e: Element, tag: string)
    decreases e
  {
    e.tag == tag || exists i :: 0 <= i < |e.children| && Occurs(e.children[i], tag)
  }

  lemma {:induction false} SetMatchingAbsent(e: Element, tag: string, key: string, value: string)
    requires !Occurs(e, tag)
    ensures SetMatching(e, tag, key, value) == e
    decreases e
  {
    forall i | 0 <= i < |e.children| {
      SetMatchingAbsent(e.children[i], tag, key, value);
    }
  }

  /**
   * A configuration with no `params` and no `experiment` element below its
   * root is left exactly as it was: the edit silently does nothing.
   */
  lemma ConfigureWithoutTargets(root: Element, fsm: string, seed: string)
    requires forall i :: 0 <= i < |root.children| ==> !Occurs(root.children[i], ParamsTag) && !Occurs(root.children[i], ExperimentTag)
    ensures Configure(root, fsm, seed) == root
  {
    forall i | 0 <= i < |root.children| {
      SetMatchingAbsent(root.children[i], ParamsTag, FsmConfigKey, fsm);
    }
    assert SetBelow(root, ParamsTag, FsmConfigKey, fsm) == root;
    forall i | 0 <= i < |root.children| {
      SetMatchingAbsent(root.children[i], ExperimentTag, RandomSeedKey, seed);
    }
  }
}
