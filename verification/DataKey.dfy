/** EnumItems: one enumeration over virtual items and the registry items they do not shadow. */
module DataKey {
  import opened Strings

  predicate Shadowed(items: seq<string>, name: string) {
    exists k :: 0 <= k < |items| && EqualsIgnoreCase(items[k], name)
  }

  /** The registry names that no virtual item shadows, in order. */
  function Unshadowed(items: seq<string>, names: seq<string>): seq<string> {
    if names == [] then []
    else Unshadowed(items, Front(names)) + if Shadowed(items, Last(names)) then [] else [Last(names)]
  }

  /** What the enumeration lists. */
  function Merged(items: seq<string>, registry: Option<seq<string>>): seq<string> {
    items + match registry case None => [] case Some(names) => Unshadowed(items, names)
  }

  /** How many of the first `k` registry names no virtual item shadows. */
  function CountUnshadowed(items: seq<string>, names: seq<string>, k: nat): nat
    requires k <= |names|
  {
    if k == 0 then 0 else CountUnshadowed(items, names, k - 1) + if Shadowed(items, names[k - 1]) then 0 else 1
  }

  /**
   The answer for `index`: first the virtual items in their order, then the registry names that none of them shadows, in
   theirs; nothing past those, and no registry names where there is no registry key.
   */
  ghost predicate Enumerates(items: seq<string>, registry: Option<seq<string>>, index: nat, r: Option<string>) {
    if index < |items| then r == Some(items[index])
    else match registry
      case None => r == None
      case Some(names) =>
        match r
        case None => CountUnshadowed(items, names, |names|) <= index - |items|
        case Some(name) =>
          exists k :: 0 <= k < |names| && name == names[k] && !Shadowed(items, names[k]) &&
            CountUnshadowed(items, names, k) == index - |items|
  }

  class Key {
    var items: seq<string>
    var registry: Option<seq<string>>

    constructor (items: seq<string>, registry: Option<seq<string>>)
      ensures this.items == items && this.registry == registry
    {
      this.items, this.registry := items, registry;
    }

    /** The registry's own enumeration. */
    function EnumFunc(idx: nat): Option<string>
      reads this
      requires registry.Some?
    {
      if idx < |registry.value| then Some(registry.value[idx]) else None
    }

    /** The item at `index`, or None past the end. */
    method EnumItems(index: nat) returns (r: Option<string>)
      ensures var all := Merged(items, registry); r == if index < |all| then Some(all[index]) else None
    {
      if index < |items| {
        return Some(items[index]);
      }
      if registry.None? {
        return None;
      }
      ghost var names := registry.value;
      UnshadowedAll(items, names);
      var rest := index - |items|;
      var idx := 0;
      for i := 0 to rest + 1
        invariant idx <= |names| && |Unshadowed(items, names[..idx])| == i
        invariant i > 0 ==> idx > 0 && Unshadowed(items, names[..idx])[i - 1] == names[idx - 1]
      {
        while true
          invariant idx <= |names| && |Unshadowed(items, names[..idx])| == i
          decreases |names| - idx
        {
          var itemName := EnumFunc(idx);
          if itemName.None? {
            assert names[..idx] == names;
            return None;
          }
          UnshadowedStep(items, names, idx);
          if !Shadowed(items, itemName.value) {
            break;
          }
          idx := idx + 1;
        }
        idx := idx + 1;
      }
      UnshadowedPrefix(items, names, idx);
      return EnumFunc(idx - 1);
    }
  }

  lemma UnshadowedStep(items: seq<string>, names: seq<string>, k: nat)
    requires k < |names|
    ensures Unshadowed(items, names[..k + 1]) ==
      Unshadowed(items, names[..k]) + if Shadowed(items, names[k]) then [] else [names[k]]
  {
    assert Front(names[..k + 1]) == names[..k];
  }

  lemma UnshadowedAll(items: seq<string>, names: seq<string>)
    ensures names[..|names|] == names && names[..0] == []
  {
  }

  lemma {:induction false} UnshadowedPrefix(items: seq<string>, names: seq<string>, k: nat)
    requires k <= |names|
    ensures Unshadowed(items, names[..k]) <= Unshadowed(items, names)
    decreases |names| - k
  {
    if k == |names| {
      assert names[..k] == names;
    } else {
      UnshadowedStep(items, names, k);
      UnshadowedPrefix(items, names, k + 1);
    }
  }

  lemma {:induction false} CountFront(items: seq<string>, names: seq<string>, k: nat)
    requires k < |names|
    ensures CountUnshadowed(items, Front(names), k) == CountUnshadowed(items, names, k)
  {
    if k > 0 {
      CountFront(items, names, k - 1);
    }
  }

  /** The unshadowed name behind `j` others, or that there is none. */
  lemma {:induction false} UnshadowedAt(items: seq<string>, names: seq<string>, j: nat)
    ensures |Unshadowed(items, names)| == CountUnshadowed(items, names, |names|)
    ensures j < |Unshadowed(items, names)| ==>
      exists k :: 0 <= k < |names| && Unshadowed(items, names)[j] == names[k] && !Shadowed(items, names[k]) &&
        CountUnshadowed(items, names, k) == j
  {
    if names != [] {
      hide Shadowed;
      var rest, u, n := Front(names), Unshadowed(items, Front(names)), |names| - 1;
      UnshadowedAt(items, rest, j);
      CountFront(items, names, n);
      if j < |u| {
        var k :| 0 <= k < |rest| && u[j] == rest[k] && !Shadowed(items, rest[k]) &&
          CountUnshadowed(items, rest, k) == j;
        CountFront(items, names, k);
        assert names[k] == rest[k];
      } else if j < |Unshadowed(items, names)| {
        assert Unshadowed(items, names)[j] == names[n];
      }
    }
  }

  /** The merged list answers every index as the two lists say, with and without a registry key. */
  lemma MergedEnumerates(items: seq<string>, registry: Option<seq<string>>, index: nat)
    ensures var all := Merged(items, registry);
      Enumerates(items, registry, index, if index < |all| then Some(all[index]) else None)
  {
    hide Shadowed, Unshadowed, CountUnshadowed;
    if registry.Some? && index >= |items| {
      UnshadowedAt(items, registry.value, index - |items|);
    }
  }

  // ----- what is listed

  predicate Distinct(names: seq<string>) {
    forall i, j :: 0 <= i < j < |names| ==> !EqualsIgnoreCase(names[i], names[j])
  }

  lemma {:induction false} UnshadowedDistinct(items: seq<string>, names: seq<string>)
    requires Distinct(names)
    ensures var u := Unshadowed(items, names);
      Distinct(u) && forall i :: 0 <= i < |u| ==> !Shadowed(items, u[i]) && u[i] in names
  {
    if names != [] {
      hide EqualsIgnoreCase;
      UnshadowedDistinct(items, Front(names));
      var u := Unshadowed(items, Front(names));
      forall i | 0 <= i < |u|
        ensures !EqualsIgnoreCase(u[i], Last(names))
      {
        assert u[i] in Front(names);
        var j :| 0 <= j < |Front(names)| && Front(names)[j] == u[i];
        assert names[j] == u[i];
      }
    }
  }

  /** Without repeats in either list there are none in the enumeration. */
  lemma MergedIsDistinct(items: seq<string>, names: seq<string>)
    requires Distinct(items) && Distinct(names)
    ensures Distinct(Merged(items, Some(names)))
  {
    UnshadowedDistinct(items, names);
    hide EqualsIgnoreCase;
    var u, all := Unshadowed(items, names), Merged(items, Some(names));
    forall i, j | 0 <= i < j < |all|
      ensures !EqualsIgnoreCase(all[i], all[j])
    {
      if i < |items| <= j {
        assert all[j] == u[j - |items|];
        assert !Shadowed(items, u[j - |items|]);
      } else if |items| <= i {
        assert all[i] == u[i - |items|] && all[j] == u[j - |items|];
      }
    }
  }

  lemma {:induction false} UnshadowedComplete(items: seq<string>, names: seq<string>, i: nat)
    requires i < |names| && !Shadowed(items, names[i])
    ensures names[i] in Unshadowed(items, names)
  {
    if i < |names| - 1 {
      assert Front(names)[i] == names[i];
      UnshadowedComplete(items, Front(names), i);
    }
  }

  /** The enumeration lists the union: every item of either list appears, up to case, and nothing else does. */
  lemma MergedIsUnion(items: seq<string>, names: seq<string>, name: string)
    ensures Shadowed(Merged(items, Some(names)), name) <==> Shadowed(items, name) || Shadowed(names, name)
  {
    var all := Merged(items, Some(names));
    if Shadowed(items, name) {
      var k :| 0 <= k < |items| && EqualsIgnoreCase(items[k], name);
      assert all[k] == items[k];
    } else if Shadowed(names, name) {
      var k :| 0 <= k < |names| && EqualsIgnoreCase(names[k], name);
      SameShadow(items, names[k], name);
      UnshadowedComplete(items, names, k);
      assert names[k] in all;
    }
    if Shadowed(all, name) {
      var k :| 0 <= k < |all| && EqualsIgnoreCase(all[k], name);
      if k < |items| {
        assert all[k] == items[k];
      } else {
        UnshadowedIsListed(items, names, k - |items|);
      }
    }
  }

  lemma SameShadow(items: seq<string>, a: string, b: string)
    requires EqualsIgnoreCase(a, b)
    ensures Shadowed(items, a) ==> Shadowed(items, b)
  {
    if k :| 0 <= k < |items| && EqualsIgnoreCase(items[k], a) {
      assert EqualsIgnoreCase(items[k], b);
    }
  }

  lemma {:induction false} UnshadowedIsListed(items: seq<string>, names: seq<string>, i: nat)
    requires i < |Unshadowed(items, names)|
    ensures exists k :: 0 <= k < |names| && names[k] == Unshadowed(items, names)[i]
  {
    var u := Unshadowed(items, Front(names));
    if i < |u| {
      UnshadowedIsListed(items, Front(names), i);
      var k :| 0 <= k < |names| - 1 && Front(names)[k] == u[i];
      assert names[k] == u[i];
    } else {
      assert names[|names| - 1] == Unshadowed(items, names)[i];
    }
  }
}
