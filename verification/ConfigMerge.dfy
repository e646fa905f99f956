/**
 * Layered configuration (src/pheasant/config/loader.py): `deep_merge` and the
 * fold of defaults, profile, file and overrides.  A configuration value is a
 * mapping or a leaf; anything that is not a mapping (a scalar, a list, a
 * null) is a leaf.
 */
module ConfigMerge {

  import opened Options

  datatype Value = Leaf(text: string) | Map(entries: map<string, Value>)

  /** Per key: two mappings merge, anything else is replaced by the overlay's value. */
  function Merge(base: Value, overlay: Value): Value
    decreases overlay
  {
    if base.Leaf? || overlay.Leaf? then overlay else
      Map(map k | k in base.entries.Keys + overlay.entries.Keys ::
            if k !in overlay.entries then base.entries[k]
            else if k !in base.entries then overlay.entries[k]
            else Merge(base.entries[k], overlay.entries[k]))
  }

  /** The loop of `deep_merge`, over the overlay's keys in any order. */
  method DeepMerge(base: map<string, Value>, overlay: map<string, Value>) returns (merged: map<string, Value>)
    ensures Map(merged) == Merge(Map(base), Map(overlay))
    decreases Map(overlay)
  {
    merged := base;
    var pending := overlay.Keys;
    while pending != {}
      invariant pending <= overlay.Keys
      invariant merged.Keys == base.Keys + (overlay.Keys - pending)
      invariant forall k :: k in base && (k !in overlay || k in pending) ==> merged[k] == base[k]
      invariant forall k :: k in overlay && k !in pending ==>
                  merged[k] == if k in base then Merge(base[k], overlay[k]) else overlay[k]
      decreases pending
    {
      var key :| key in pending;
      pending := pending - {key};
      var value := overlay[key];
      assert value < Map(overlay);
      if value.Map? && key in merged && merged[key].Map? {
        var inner := DeepMerge(merged[key].entries, value.entries);
        merged := merged[key := Map(inner)];
      } else {
        merged := merged[key := value];
      }
    }
  }

  // ------------------------------------------------------------ laws

  /** Applying the same overlay twice is applying it once. */
  lemma {:induction false} MergeIdempotent(base: Value, overlay: Value)
    ensures Merge(Merge(base, overlay), overlay) == Merge(base, overlay)
    decreases overlay
  {
    if base.Map? && overlay.Map? {
      var once := Merge(base, overlay);
      forall k | k in overlay.entries
        ensures Merge(once.entries[k], overlay.entries[k]) == once.entries[k]
      {
        if k in base.entries {
          MergeIdempotent(base.entries[k], overlay.entries[k]);
        } else {
          MergeSelf(overlay.entries[k]);
        }
      }
      assert Merge(once, overlay).entries == once.entries;
    } else {
      MergeSelf(overlay);
    }
  }

  lemma {:induction false} MergeSelf(v: Value)
    ensures Merge(v, v) == v
  {
    if v.Map? {
      forall k | k in v.entries
        ensures Merge(v.entries[k], v.entries[k]) == v.entries[k]
      {
        MergeSelf(v.entries[k]);
      }
      assert Merge(v, v).entries == v.entries;
    }
  }

  /** `base` says nothing that `over` does not replace. */
  ghost predicate Within(base: Value, over: Value)
    decreases over
  {
    base.Map? && over.Map? ==>
      && base.entries.Keys <= over.entries.Keys
      && forall k :: k in base.entries && k in over.entries ==> Within(base.entries[k], over.entries[k])
  }

  lemma {:induction false} WithinExactly(base: Value, over: Value)
    ensures Merge(base, over) == over <==> Within(base, over)
    decreases over
  {
    if base.Map? && over.Map? {
      var m := Merge(base, over);
      forall k | k in base.entries && k in over.entries
        ensures Merge(base.entries[k], over.entries[k]) == over.entries[k] <==> Within(base.entries[k], over.entries[k])
      {
        WithinExactly(base.entries[k], over.entries[k]);
      }
      if Within(base, over) {
        assert m.entries == over.entries;
      }
      if m == over {
        assert base.entries.Keys <= m.entries.Keys;
        forall k | k in base.entries && k in over.entries
          ensures Within(base.entries[k], over.entries[k])
        {
          assert m.entries[k] == over.entries[k];
        }
      }
    }
  }

  /**
   * No path holds mappings in the outer layers and a leaf in the middle one,
   * except where the last layer replaces everything the first one said.
   */
  ghost predicate Regroupable(a: Value, b: Value, c: Value)
    decreases c
  {
    a.Map? && c.Map? ==>
      if b.Leaf? then Within(a, c)
      else forall k :: k in a.entries && k in b.entries && k in c.entries ==>
             Regroupable(a.entries[k], b.entries[k], c.entries[k])
  }

  function Left(a: Value, b: Value, c: Value): Value {
    Merge(Merge(a, b), c)
  }

  function Right(a: Value, b: Value, c: Value): Value {
    Merge(a, Merge(b, c))
  }

  /** Merging is associative exactly on the regroupable triples. */
  lemma {:induction false} AssociativeExactly(a: Value, b: Value, c: Value)
    ensures Left(a, b, c) == Right(a, b, c) <==> Regroupable(a, b, c)
    decreases c
  {
    if a.Map? && b.Map? && c.Map? {
      var l, r := Left(a, b, c), Right(a, b, c);
      assert l.entries.Keys == a.entries.Keys + b.entries.Keys + c.entries.Keys == r.entries.Keys;
      forall k | k in l.entries
        ensures l.entries[k] == r.entries[k]
           <==> (k in a.entries && k in b.entries && k in c.entries ==>
                   Regroupable(a.entries[k], b.entries[k], c.entries[k]))
      {
        if k in a.entries && k in b.entries && k in c.entries {
          AssociativeExactly(a.entries[k], b.entries[k], c.entries[k]);
          assert l.entries[k] == Left(a.entries[k], b.entries[k], c.entries[k]);
          assert r.entries[k] == Right(a.entries[k], b.entries[k], c.entries[k]);
        }
      }
      if Regroupable(a, b, c) {
        assert l.entries == r.entries;
      }
      if l == r {
        forall k | k in a.entries && k in b.entries && k in c.entries
          ensures Regroupable(a.entries[k], b.entries[k], c.entries[k])
        {
          assert l.entries[k] == r.entries[k];
        }
      }
    } else if a.Map? && b.Leaf? && c.Map? {
      WithinExactly(a, c);
    }
  }

  /** A profile may turn a section into a leaf and a later layer back into a mapping: then grouping shows. */
  lemma RegroupingCanFail()
    ensures var a := Map(map["storage" := Map(map["path" := Leaf("/state")])]);
            var b := Map(map["storage" := Leaf("null")]);
            var c := Map(map["storage" := Map(map[])]);
            !Regroupable(a, b, c) && Left(a, b, c) != Right(a, b, c)
  {
    var section := Map(map["path" := Leaf("/state")]);
    var a, b, c := Map(map["storage" := section]), Map(map["storage" := Leaf("null")]), Map(map["storage" := Map(map[])]);
    assert "path" in section.entries;
    assert !Within(section, Map(map[]));
    assert !Regroupable(a.entries["storage"], b.entries["storage"], c.entries["storage"]);
    AssociativeExactly(a, b, c);
  }

  // ------------------------------------------------------------ what a path reads

  type Path = seq<string>

  /** The leaf at a dotted path, if there is one. */
  function LeafAt(v: Value, path: Path): Option<string> {
    if path == [] then (if v.Leaf? then Some(v.text) else None)
    else if v.Map? && path[0] in v.entries then LeafAt(v.entries[path[0]], path[1..])
    else None
  }

  /** The layer neither sets the path nor replaces one of its prefixes or the value there. */
  predicate Silent(layer: Value, path: Path) {
    && path != [] && layer.Map?
    && (path[0] in layer.entries ==> Silent(layer.entries[path[0]], path[1..]))
  }

  /** Path by path, a merge reads from the overlay unless it is silent there. */
  lemma {:induction false} MergeReads(base: Value, overlay: Value, path: Path)
    ensures LeafAt(Merge(base, overlay), path)
         == if Silent(overlay, path) then LeafAt(base, path) else LeafAt(overlay, path)
    decreases path
  {
    if base.Map? && overlay.Map? && path != [] {
      var k := path[0];
      if k in base.entries && k in overlay.entries {
        MergeReads(base.entries[k], overlay.entries[k], path[1..]);
      } else if k in overlay.entries {
        SilentMeansAbsent(overlay.entries[k], path[1..]);
      }
    } else {
      SilentMeansAbsent(overlay, path);
    }
  }

  lemma {:induction false} SilentMeansAbsent(layer: Value, path: Path)
    ensures Silent(layer, path) ==> LeafAt(layer, path) == None
  {
    if path != [] && layer.Map? && path[0] in layer.entries {
      SilentMeansAbsent(layer.entries[path[0]], path[1..]);
    }
  }

  /** Is there a section, possibly empty, at the path? */
  predicate SectionAt(v: Value, path: Path) {
    v.Map? && (path != [] ==> path[0] in v.entries && SectionAt(v.entries[path[0]], path[1..]))
  }

  /** Sections, empty ones too, come from the overlay unless it is silent there. */
  lemma {:induction false} MergeSections(base: Value, overlay: Value, path: Path)
    ensures SectionAt(Merge(base, overlay), path)
         == if Silent(overlay, path) then SectionAt(base, path) else SectionAt(overlay, path)
    decreases path
  {
    if base.Map? && overlay.Map? && path != [] {
      var k := path[0];
      if k in base.entries && k in overlay.entries {
        MergeSections(base.entries[k], overlay.entries[k], path[1..]);
      } else if k in overlay.entries {
        SilentMeansNoSection(overlay.entries[k], path[1..]);
      }
    } else {
      SilentMeansNoSection(overlay, path);
    }
  }

  lemma {:induction false} SilentMeansNoSection(layer: Value, path: Path)
    ensures Silent(layer, path) ==> !SectionAt(layer, path)
  {
    if path != [] && layer.Map? && path[0] in layer.entries {
      SilentMeansNoSection(layer.entries[path[0]], path[1..]);
    }
  }

  /** The two configurations read alike, leaves and sections, at every path. */
  ghost predicate ReadAlike(v: Value, w: Value) {
    forall path: Path :: LeafAt(v, path) == LeafAt(w, path) && SectionAt(v, path) == SectionAt(w, path)
  }

  lemma AlikeBelow(v: Value, w: Value, k: string)
    requires v.Map? && w.Map? && k in v.entries && k in w.entries && ReadAlike(v, w)
    ensures ReadAlike(v.entries[k], w.entries[k])
  {
    forall path: Path
      ensures LeafAt(v.entries[k], path) == LeafAt(w.entries[k], path) && SectionAt(v.entries[k], path) == SectionAt(w.entries[k], path)
    {
      assert ([k] + path)[1..] == path;
      assert LeafAt(v, [k] + path) == LeafAt(w, [k] + path) && SectionAt(v, [k] + path) == SectionAt(w, [k] + path);
    }
  }

  lemma AlikeKey(v: Value, w: Value, k: string)
    requires v.Map? && w.Map? && k in v.entries && ReadAlike(v, w)
    ensures k in w.entries
  {
    assert [k][1..] == [];
    assert LeafAt(v, [k]) == LeafAt(v.entries[k], []) && SectionAt(v, [k]) == SectionAt(v.entries[k], []);
    assert LeafAt(v, [k]) == LeafAt(w, [k]) && SectionAt(v, [k]) == SectionAt(w, [k]);
  }

  /** What is read at every path determines the configuration, so the two laws above say all there is to a merge. */
  lemma {:induction false} ReadsDetermine(v: Value, w: Value)
    requires ReadAlike(v, w)
    ensures v == w
    decreases v
  {
    assert LeafAt(v, []) == LeafAt(w, []) && SectionAt(v, []) == SectionAt(w, []);
    if v.Map? {
      forall k | k in v.entries
        ensures k in w.entries && v.entries[k] == w.entries[k]
      {
        AlikeKey(v, w, k);
        AlikeBelow(v, w, k);
        ReadsDetermine(v.entries[k], w.entries[k]);
      }
      forall k | k in w.entries
        ensures k in v.entries
      {
        AlikeKey(w, v, k);
      }
      assert v.entries == w.entries;
    }
  }

  /** Defaults, then the profile, then the file when there is one, then the overrides. */
  function Layered(defaults: Value, profile: Value, file: Option<Value>, overrides: Value): Value {
    var base := Merge(defaults, profile);
    Merge(if file.Some? then Merge(base, file.value) else base, overrides)
  }

  method LoadLayered(defaults: map<string, Value>, profile: map<string, Value>,
                     file: Option<map<string, Value>>, overrides: map<string, Value>)
    returns (data: map<string, Value>)
    ensures Map(data) == Layered(Map(defaults), Map(profile),
                                 if file.Some? then Some(Map(file.value)) else None, Map(overrides))
  {
    data := DeepMerge(defaults, profile);
    if file.Some? {
      data := DeepMerge(data, file.value);
    }
    data := DeepMerge(data, overrides);
  }

  /** Every path reads from the last layer that speaks about it; a leaf of the last layer always survives. */
  lemma LayeredReads(defaults: Value, profile: Value, file: Option<Value>, overrides: Value, path: Path)
    ensures LeafAt(Layered(defaults, profile, file, overrides), path)
         == if !Silent(overrides, path) then LeafAt(overrides, path)
            else if file.Some? && !Silent(file.value, path) then LeafAt(file.value, path)
            else if !Silent(profile, path) then LeafAt(profile, path)
            else LeafAt(defaults, path)
    ensures LeafAt(overrides, path).Some? ==> LeafAt(Layered(defaults, profile, file, overrides), path) == LeafAt(overrides, path)
  {
    var base := Merge(defaults, profile);
    MergeReads(defaults, profile, path);
    if file.Some? {
      MergeReads(base, file.value, path);
      MergeReads(Merge(base, file.value), overrides, path);
    } else {
      MergeReads(base, overrides, path);
    }
    SilentMeansAbsent(overrides, path);
  }

  /** The same for sections, empty ones too. */
  lemma LayeredSections(defaults: Value, profile: Value, file: Option<Value>, overrides: Value, path: Path)
    ensures SectionAt(Layered(defaults, profile, file, overrides), path)
         == if !Silent(overrides, path) then SectionAt(overrides, path)
            else if file.Some? && !Silent(file.value, path) then SectionAt(file.value, path)
            else if !Silent(profile, path) then SectionAt(profile, path)
            else SectionAt(defaults, path)
  {
    var base := Merge(defaults, profile);
    MergeSections(defaults, profile, path);
    if file.Some? {
      MergeSections(base, file.value, path);
      MergeSections(Merge(base, file.value), overrides, path);
    } else {
      MergeSections(base, overrides, path);
    }
  }

  /** The file and the overrides may be merged first exactly when they regroup over the base. */
  lemma LayersRegroupExactly(defaults: Value, profile: Value, file: Value, overrides: Value)
    ensures Layered(defaults, profile, Some(file), overrides) == Merge(Merge(defaults, profile), Merge(file, overrides))
       <==> Regroupable(Merge(defaults, profile), file, overrides)
  {
    AssociativeExactly(Merge(defaults, profile), file, overrides);
  }
}
