/** The two recursive mapping merges of `chain.rs`. They differ in one case: a nested
    mapping that the overlay leaves empty replaces the old one in the DNS merge and
    changes nothing in the GUI merge. */
module DeepMerge {
  import opened Wrappers
  import opened Yaml

  /** Whether the merge recurses into a key instead of replacing its value. */
  predicate Descends(base: Option<Value>, overlay: Option<Value>, emptyReplaces: bool) {
    && base.Some? && base.value.Map?
    && overlay.Some? && overlay.value.Map?
    && (emptyReplaces ==> overlay.value.entries != map[])
  }

  /** The mapping both loops compute; `emptyReplaces` tells them apart. */
  function Merged(base: Mapping, overlay: Mapping, emptyReplaces: bool): Mapping
    decreases Map(overlay)
  {
    map k | k in base.Keys + overlay.Keys ::
      if k !in overlay then base[k]
      else if Descends(Lookup(base, k), Lookup(overlay, k), emptyReplaces)
      then Map(Merged(base[k].entries, overlay[k].entries, emptyReplaces))
      else overlay[k]
  }

  /** `merge_mapping_values`: the overlay's keys are visited in any order. */
  method MergeMappingValues(base: Config, overlay: Mapping)
    modifies base
    ensures base.entries == Merged(old(base.entries), overlay, true)
    decreases Map(overlay)
  {
    var todo := overlay.Keys;
    while todo != {}
      invariant todo <= overlay.Keys
      invariant base.entries.Keys == old(base.entries).Keys + (overlay.Keys - todo)
      invariant forall k | k in base.entries ::
        base.entries[k] == if k in overlay.Keys - todo then Merged(old(base.entries), overlay, true)[k]
                           else old(base.entries)[k]
      decreases todo
    {
      var key :| key in todo;
      todo := todo - {key};
      var value := overlay[key];
      if key in base.entries && base.entries[key].Map? && value.Map? && value.entries != map[] {
        var nested := new Config(base.entries[key].entries);
        MergeMappingValues(nested, value.entries);
        base.entries := base.entries[key := Map(nested.entries)];
      } else {
        base.entries := base.entries[key := value];
      }
    }
  }

  /** `merge_gui_values`. */
  method MergeGuiValues(base: Config, overlay: Mapping)
    modifies base
    ensures base.entries == Merged(old(base.entries), overlay, false)
    decreases Map(overlay)
  {
    var todo := overlay.Keys;
    while todo != {}
      invariant todo <= overlay.Keys
      invariant base.entries.Keys == old(base.entries).Keys + (overlay.Keys - todo)
      invariant forall k | k in base.entries ::
        base.entries[k] == if k in overlay.Keys - todo then Merged(old(base.entries), overlay, false)[k]
                           else old(base.entries)[k]
      decreases todo
    {
      var key :| key in todo;
      todo := todo - {key};
      var value := overlay[key];
      if key in base.entries && base.entries[key].Map? && value.Map? {
        var existing := new Config(base.entries[key].entries);
        MergeGuiValues(existing, value.entries);
        base.entries := base.entries[key := Map(existing.entries)];
      } else {
        base.entries := base.entries[key := value];
      }
    }
  }

  // ---------- what a merge means at every path ----------

  /** The value at a nonempty path of keys, if every step but the last is a mapping. */
  function AtPath(m: Mapping, path: seq<Value>): Option<Value>
    requires path != []
    decreases |path|
  {
    if path[0] !in m then None
    else if |path| == 1 then Some(m[path[0]])
    else if m[path[0]].Map? then AtPath(m[path[0]].entries, path[1..])
    else None
  }

  /** The overlay settles `path` when it holds a value on the way there, or at its
      end, that is not merged with a mapping of the base. */
  ghost predicate OverlayDecides(base: Mapping, overlay: Mapping, path: seq<Value>, emptyReplaces: bool)
    requires path != []
  {
    exists n | 1 <= n <= |path| ::
      && AtPath(overlay, path[..n]).Some?
      && !Descends(AtPath(base, path[..n]), AtPath(overlay, path[..n]), emptyReplaces)
  }

  /** One step of a decision: either the first key settles it or the rest of the path does. */
  lemma DecidesByHeadOrTail(base: Mapping, overlay: Mapping, path: seq<Value>, emptyReplaces: bool)
    requires path != []
    ensures path[0] !in overlay ==> !OverlayDecides(base, overlay, path, emptyReplaces)
    ensures path[0] in overlay && !Descends(Lookup(base, path[0]), Lookup(overlay, path[0]), emptyReplaces)
      ==> OverlayDecides(base, overlay, path, emptyReplaces)
    ensures |path| > 1 && Descends(Lookup(base, path[0]), Lookup(overlay, path[0]), emptyReplaces)
      ==> (OverlayDecides(base, overlay, path, emptyReplaces)
           <==> OverlayDecides(base[path[0]].entries, overlay[path[0]].entries, path[1..], emptyReplaces))
    ensures |path| == 1 && Descends(Lookup(base, path[0]), Lookup(overlay, path[0]), emptyReplaces)
      ==> !OverlayDecides(base, overlay, path, emptyReplaces)
  {
    assert path[..1] == [path[0]];
    assert AtPath(overlay, path[..1]) == Lookup(overlay, path[0]);
    assert AtPath(base, path[..1]) == Lookup(base, path[0]);
    if |path| > 1 && Descends(Lookup(base, path[0]), Lookup(overlay, path[0]), emptyReplaces) {
      forall n | 2 <= n <= |path|
        ensures AtPath(overlay, path[..n]) == AtPath(overlay[path[0]].entries, path[1..][..n - 1])
        ensures AtPath(base, path[..n]) == AtPath(base[path[0]].entries, path[1..][..n - 1])
      {
        assert path[..n][1..] == path[1..][..n - 1];
      }
      if OverlayDecides(base[path[0]].entries, overlay[path[0]].entries, path[1..], emptyReplaces) {
        var m :| 1 <= m <= |path| - 1
          && AtPath(overlay[path[0]].entries, path[1..][..m]).Some?
          && !Descends(AtPath(base[path[0]].entries, path[1..][..m]),
                       AtPath(overlay[path[0]].entries, path[1..][..m]), emptyReplaces);
        assert AtPath(overlay, path[..m + 1]).Some?;
      }
    }
  }

  /** The overlay's value where the overlay decides, the base's where it says nothing,
      and the merge of the two mappings where both hold one. */
  lemma {:induction false} MergedAtPath(base: Mapping, overlay: Mapping, path: seq<Value>, emptyReplaces: bool)
    requires path != []
    ensures OverlayDecides(base, overlay, path, emptyReplaces)
      ==> AtPath(Merged(base, overlay, emptyReplaces), path) == AtPath(overlay, path)
    ensures !OverlayDecides(base, overlay, path, emptyReplaces) && AtPath(overlay, path).None?
      ==> AtPath(Merged(base, overlay, emptyReplaces), path) == AtPath(base, path)
    ensures !OverlayDecides(base, overlay, path, emptyReplaces) && AtPath(overlay, path).Some?
      ==> && Descends(AtPath(base, path), AtPath(overlay, path), emptyReplaces)
          && AtPath(Merged(base, overlay, emptyReplaces), path)
             == Some(Map(Merged(AtPath(base, path).value.entries, AtPath(overlay, path).value.entries, emptyReplaces)))
    decreases |path|
  {
    DecidesByHeadOrTail(base, overlay, path, emptyReplaces);
    if |path| > 1 && Descends(Lookup(base, path[0]), Lookup(overlay, path[0]), emptyReplaces) {
      MergedAtPath(base[path[0]].entries, overlay[path[0]].entries, path[1..], emptyReplaces);
    }
  }

  // ---------- idempotence ----------

  lemma {:induction false} MergeWithItself(overlay: Mapping, emptyReplaces: bool)
    ensures Merged(overlay, overlay, emptyReplaces) == overlay
    decreases Map(overlay)
  {
    forall k | k in overlay
      ensures Merged(overlay, overlay, emptyReplaces)[k] == overlay[k]
    {
      if overlay[k].Map? {
        MergeWithItself(overlay[k].entries, emptyReplaces);
      }
    }
  }

  /** Applying the same overlay a second time changes nothing. */
  lemma {:induction false} MergeIdempotent(base: Mapping, overlay: Mapping, emptyReplaces: bool)
    ensures var once := Merged(base, overlay, emptyReplaces);
            Merged(once, overlay, emptyReplaces) == once
    decreases Map(overlay)
  {
    var once := Merged(base, overlay, emptyReplaces);
    var twice := Merged(once, overlay, emptyReplaces);
    forall k | k in once
      ensures k in twice && twice[k] == once[k]
    {
      if k in overlay && overlay[k].Map? {
        if Descends(Lookup(base, k), Lookup(overlay, k), emptyReplaces) {
          MergeIdempotent(base[k].entries, overlay[k].entries, emptyReplaces);
        } else {
          MergeWithItself(overlay[k].entries, emptyReplaces);
        }
      }
    }
    assert twice.Keys == once.Keys;
  }

  // ---------- where the two merges agree ----------

  /** No mapping below the overlay's top level is empty. */
  predicate NoEmptyNested(overlay: Mapping)
    decreases Map(overlay)
  {
    forall k | k in overlay && overlay[k].Map? :: overlay[k].entries != map[] && NoEmptyNested(overlay[k].entries)
  }

  lemma {:induction false} MergesAgree(base: Mapping, overlay: Mapping)
    requires NoEmptyNested(overlay)
    ensures Merged(base, overlay, true) == Merged(base, overlay, false)
    decreases Map(overlay)
  {
    forall k | k in base.Keys + overlay.Keys
      ensures Merged(base, overlay, true)[k] == Merged(base, overlay, false)[k]
    {
      if k in overlay && Descends(Lookup(base, k), Lookup(overlay, k), false) {
        MergesAgree(base[k].entries, overlay[k].entries);
      }
    }
  }

  /** A base that tells the two merges apart. */
  lemma {:induction false} DistinguishingBase(overlay: Mapping) returns (base: Mapping)
    requires !NoEmptyNested(overlay)
    ensures Merged(base, overlay, true) != Merged(base, overlay, false)
    decreases Map(overlay)
  {
    var k :| k in overlay && overlay[k].Map? && (overlay[k].entries == map[] || !NoEmptyNested(overlay[k].entries));
    if overlay[k].entries == map[] {
      base := map[k := Map(map[Null := Null])];
      assert Null in Merged(map[Null := Null], overlay[k].entries, false);
      assert Merged(base, overlay, false)[k].entries != map[];
      assert Merged(base, overlay, true)[k] == overlay[k];
    } else {
      var inner := DistinguishingBase(overlay[k].entries);
      base := map[k := Map(inner)];
      assert Merged(base, overlay, true)[k] == Map(Merged(inner, overlay[k].entries, true));
      assert Merged(base, overlay, false)[k] == Map(Merged(inner, overlay[k].entries, false));
    }
  }

  /** The two merges agree on every base exactly for overlays without an empty nested mapping. */
  lemma MergesAgreeExactly(overlay: Mapping)
    ensures NoEmptyNested(overlay)
      <==> forall base: Mapping :: Merged(base, overlay, true) == Merged(base, overlay, false)
  {
    if NoEmptyNested(overlay) {
      forall base: Mapping
        ensures Merged(base, overlay, true) == Merged(base, overlay, false)
      {
        MergesAgree(base, overlay);
      }
    } else {
      var base := DistinguishingBase(overlay);
    }
  }
}
