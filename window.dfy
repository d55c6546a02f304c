/** Window: the editor window's state (the chosen renderer, its mesh, the
    blendshape names, the entry list and the picker's check marks) and the
    operations on it that are not drawing: reloading the mesh, adding
    entries, searching names, the batch percentage, and the bake. */
module Window {
  import opened Meshes
  import opened Entries
  import opened Rescaling
  import opened Baking
  import opened Text

  /** The batch percentage a new window starts with; a field of its own,
      separate from the default percentage of a new entry. */
  const DefaultBatchPercent: real := 65.0

  /** The skinned mesh renderer the window edits; only its mesh is used. */
  class Renderer {
    var sharedMesh: Mesh?

    constructor (mesh: Mesh?)
      ensures sharedMesh == mesh
    {
      sharedMesh := mesh;
    }
  }

  /** Whether a blendshape name is listed by the picker for `query`: every
      name when the query is blank; otherwise, with the query trimmed to `q`,
      a whole-name wildcard match when `q` holds a `*`, and a
      case-insensitive substring match when it does not. */
  predicate QueryMatches(name: string, query: string) {
    || IsBlank(query)
    || (var q := Trim(query);
        if '*' in q then GlobMatches(q, name) else ContainsIgnoreCase(name, q))
  }

  /** The positions 0, 1, ..., n - 1. */
  function AllIndices(n: nat): (r: seq<int>)
    ensures |r| == n && forall i :: 0 <= i < n ==> r[i] == i
    ensures forall i :: i in r <==> 0 <= i < n
  {
    if n == 0 then [] else AllIndices(n - 1) + [n - 1]
  }

  /** The members of `s` that name one of `n` blendshapes. */
  function InRangeOf(s: set<int>, n: nat): set<int> {
    set k | k in s && InRange(k, n)
  }

  /** The entry list after adding the blendshapes `idxs`, one after another. */
  function WithIndices(es: seq<Entry>, names: seq<string>, idxs: seq<int>): seq<Entry>
    decreases |idxs|
  {
    if idxs == [] then es
    else WithEntry(WithIndices(es, names, idxs[..|idxs| - 1]), names, idxs[|idxs| - 1])
  }

  /** Adding several indices keeps the list well formed, only appends entries
      at the default percentage, and adds exactly the indices in range. */
  lemma {:induction false} WithIndicesSpec(es: seq<Entry>, names: seq<string>, idxs: seq<int>)
    requires EntriesWellFormed(es, names)
    ensures EntriesWellFormed(WithIndices(es, names, idxs), names)
    ensures AppendsDefaults(es, WithIndices(es, names, idxs))
    ensures IndexSet(WithIndices(es, names, idxs)) == IndexSet(es) + InRangeOf(set i | i in idxs, |names|)
    decreases |idxs|
  {
    if idxs == [] {
      assert AppendsDefaults(es, es) by { assert es[..|es|] == es; }
      assert InRangeOf(set i | i in idxs, |names|) == {};
    } else {
      var init, k := idxs[..|idxs| - 1], idxs[|idxs| - 1];
      assert idxs == init + [k];
      var r := WithIndices(es, names, init);
      WithIndicesSpec(es, names, init);
      WithEntryKeepsWellFormed(r, names, k);
      WithEntryAppendsDefaults(r, names, k);
      AppendsDefaultsTrans(es, r, WithIndices(es, names, idxs));
      assert (set i | i in idxs) == (set i | i in init) + {k};
      InRangeOfAdd((set i | i in init), k, |names|);
    }
  }

  /** The contains-match positions, as a set, are the names containing the
      needle; there are some exactly when some name contains it. */
  lemma ContainingAdds(names: seq<string>, needle: string)
    ensures InRangeOf(set i | i in ContainingIndices(names, needle), |names|)
              == set i | 0 <= i < |names| && ContainsIgnoreCase(names[i], needle)
    ensures |ContainingIndices(names, needle)| > 0 <==> exists i :: 0 <= i < |names| && ContainsIgnoreCase(names[i], needle)
  {
    var r := ContainingIndices(names, needle);
    assert |r| > 0 ==> r[0] in r;
  }

  lemma InRangeOfAdd(s: set<int>, k: int, n: nat)
    ensures InRangeOf(s + {k}, n) == InRangeOf(s, n) + if InRange(k, n) then {k} else {}
  {
  }

  /** Two meshes whose blendshapes carry the same names, position by
      position, report the same name list. */
  lemma SameNames(a: Mesh, b: Mesh)
    requires |a.targets| == |b.targets|
    requires forall i :: 0 <= i < |a.targets| ==> a.targets[i].name == b.targets[i].name
    ensures a.Names() == b.Names()
  {
  }

  /** Copies the blendshape names of `mesh` into a fresh array, in order. */
  method ReadNames(mesh: Mesh) returns (names: seq<string>)
    ensures names == mesh.Names()
  {
    var n := mesh.BlendShapeCount();
    var arr := new string[n];
    for i := 0 to n
      invariant forall j :: 0 <= j < i ==> arr[j] == mesh.targets[j].name
    {
      arr[i] := mesh.GetBlendShapeName(i);
    }
    names := arr[..];
  }

  /** Walks the entry list from the back, removing every entry whose index
      does not name a blendshape and refreshing the display name of the rest. */
  method PruneEntries(es: seq<Entry>, names: seq<string>) returns (r: seq<Entry>)
    ensures r == Pruned(es, names)
  {
    r := es;
    var i := |r| - 1;
    while i >= 0
      invariant -1 <= i < |es|
      invariant r == es[..i + 1] + Pruned(es[i + 1..], names)
    {
      assert es[i..][1..] == es[i + 1..];
      assert r[i] == es[i];
      if r[i].blendshapeIndex < 0 || r[i].blendshapeIndex >= |names| {
        r := r[..i] + r[i + 1..];
      } else {
        r := r[i := r[i].(displayName := names[r[i].blendshapeIndex])];
      }
      assert es[..i + 1] == es[..i] + [es[i]];
      i := i - 1;
    }
    assert es[0..] == es;
  }

  /** The entry list after adding, token by token, the first blendshape
      named exactly by each token that names one. */
  function WithNamed(es: seq<Entry>, names: seq<string>, ts: seq<string>): seq<Entry>
    decreases |ts|
  {
    if ts == [] then es
    else
      var r := WithNamed(es, names, ts[..|ts| - 1]);
      var t := ts[|ts| - 1];
      if t in names then WithEntry(r, names, FindIndex(names, t)) else r
  }

  /** Adding by name keeps the list well formed, only appends entries at the
      default percentage, and adds exactly the positions the tokens select. */
  lemma {:induction false} WithNamedSpec(es: seq<Entry>, names: seq<string>, ts: seq<string>)
    requires EntriesWellFormed(es, names)
    ensures EntriesWellFormed(WithNamed(es, names, ts), names)
    ensures AppendsDefaults(es, WithNamed(es, names, ts))
    ensures IndexSet(WithNamed(es, names, ts)) == IndexSet(es) + FoundIndices(ts, names)
    decreases |ts|
  {
    if ts == [] {
      assert AppendsDefaults(es, es) by { assert es[..|es|] == es; }
    } else {
      var init, t := ts[..|ts| - 1], ts[|ts| - 1];
      assert ts == init + [t];
      FoundStep(init, t, names);
      var r := WithNamed(es, names, init);
      WithNamedSpec(es, names, init);
      if t in names {
        WithEntryKeepsWellFormed(r, names, FindIndex(names, t));
        WithEntryAppendsDefaults(r, names, FindIndex(names, t));
        AppendsDefaultsTrans(es, r, WithNamed(es, names, ts));
      }
    }
  }

  class BakerWindow {
    var smr: Renderer?
    var srcMesh: Mesh?
    var bsNames: seq<string>
    var entries: seq<Entry>
    var pickerChecked: set<int>
    var batchPercent: real
    var autoAssignToSMR: bool

    /** The renderer's mesh, when there is one, satisfies the engine's invariant. */
    ghost predicate SharedMeshValid()
      reads this, smr, if smr != null then {smr.sharedMesh} else {}
    {
      smr != null && smr.sharedMesh != null ==> smr.sharedMesh.Valid()
    }

    /** What holds of the window even when its mesh was changed behind it
        since the last reload (its blendshapes edited by another tool, or the
        renderer given another mesh): both meshes satisfy the engine's
        invariant and no blendshape index is listed twice. `bsNames` and the
        entries' ranges may then be out of date. */
    ghost predicate Reloadable()
      reads this, smr, srcMesh, if smr != null then {smr.sharedMesh} else {}
    {
      && SharedMeshValid()
      && (srcMesh != null ==> srcMesh.Valid())
      && UniqueIndices(entries)
    }

    /** The window's invariant: `bsNames` are the names of the current mesh
        (none without a mesh) and the entry list is well formed for them. */
    ghost predicate Valid()
      reads this, smr, srcMesh, if smr != null then {smr.sharedMesh} else {}
    {
      && SharedMeshValid()
      && (srcMesh == null ==> bsNames == [])
      && (srcMesh != null ==> srcMesh.Valid() && bsNames == srcMesh.Names())
      && EntriesWellFormed(entries, bsNames)
    }

    constructor ()
      ensures Valid()
      ensures smr == null && srcMesh == null && bsNames == [] && entries == [] && pickerChecked == {}
      ensures batchPercent == DefaultBatchPercent && autoAssignToSMR
    {
      smr := null;
      srcMesh := null;
      bsNames := [];
      entries := [];
      pickerChecked := {};
      batchPercent := DefaultBatchPercent;
      autoAssignToSMR := true;
    }

    /** Picking a renderer in the header: a different renderer reloads the
        mesh, which makes an out-of-date window valid again. */
    method SelectRenderer(newSmr: Renderer?)
      requires Reloadable()
      requires newSmr != null && newSmr.sharedMesh != null ==> newSmr.sharedMesh.Valid()
      modifies this`smr, this`srcMesh, this`bsNames, this`entries
      ensures Reloadable() && smr == newSmr
      ensures old(Valid()) || newSmr != old(smr) ==> Valid()
      ensures newSmr == old(smr) ==> srcMesh == old(srcMesh) && bsNames == old(bsNames) && entries == old(entries)
      ensures newSmr != old(smr) ==>
                && srcMesh == (if newSmr != null && newSmr.sharedMesh != null then newSmr.sharedMesh else null)
                && entries == Pruned(old(entries), bsNames)
    {
      if newSmr != smr {
        smr := newSmr;
        ReloadMeshInfo();
        if srcMesh == null {
          PrunedByNoNames(old(entries));
        }
      }
    }

    /** Re-reads the renderer's mesh and its blendshape names, drops the
        entries whose index no longer names a blendshape and refreshes the
        display names of the others; without a mesh the list is emptied. */
    method ReloadMeshInfo()
      requires SharedMeshValid() && UniqueIndices(entries)
      modifies this`srcMesh, this`bsNames, this`entries
      ensures Valid()
      ensures srcMesh == (if smr != null && smr.sharedMesh != null then smr.sharedMesh else null)
      ensures srcMesh != null ==> bsNames == srcMesh.Names() && entries == Pruned(old(entries), bsNames)
      ensures srcMesh == null ==> bsNames == [] && entries == []
    {
      var mesh := if smr != null && smr.sharedMesh != null then smr.sharedMesh else null;
      srcMesh := mesh;
      if mesh != null {
        bsNames := ReadNames(mesh);
        PrunedKeepsWellFormed(entries, bsNames);
        entries := PruneEntries(entries, bsNames);
      } else {
        bsNames := [];
        entries := [];
      }
    }

    /** The name shown for an entry: the blendshape's name when the index
        names one, and a placeholder otherwise. */
    function SafeName(index: int): (r: string)
      reads this
      ensures srcMesh != null && InRange(index, |bsNames|) ==> r == bsNames[index]
      ensures srcMesh == null || |bsNames| == 0 ==> r == "(N/A)"
      ensures srcMesh != null && |bsNames| > 0 && !InRange(index, |bsNames|) ==> r == "(Invalid)"
    {
      if srcMesh == null || |bsNames| == 0 then "(N/A)"
      else if index < 0 || index >= |bsNames| then "(Invalid)"
      else bsNames[index]
    }

    /** Every entry of a valid window shows its own display name. */
    lemma SafeNameOfEntry(j: nat)
      requires Valid() && j < |entries|
      ensures SafeName(entries[j].blendshapeIndex) == entries[j].displayName
    {
    }

    /** The picker's list for `query`: the positions of the matching names, in order. */
    function FilteredIndices(query: string): (r: seq<int>)
      reads this
      ensures forall i :: i in r <==> InRange(i, |bsNames|) && QueryMatches(bsNames[i], query)
      ensures forall a, b :: 0 <= a < b < |r| ==> r[a] < r[b]
    {
      var names := bsNames;
      if |names| == 0 then []
      else if IsBlank(query) then AllIndices(|names|)
      else
        var q := Trim(query);
        if '*' in q then WildcardIndices(names, q) else ContainingIndices(names, q)
    }

    /** Adds blendshape `idx` with its name and the default percentage,
        unless it is out of range or already listed. */
    method AddOneEntry(idx: int)
      requires EntriesWellFormed(entries, bsNames)
      modifies this`entries
      ensures EntriesWellFormed(entries, bsNames)
      ensures entries == WithEntry(old(entries), bsNames, idx)
      ensures IndexSet(entries) == IndexSet(old(entries)) + (if InRange(idx, |bsNames|) then {idx} else {})
    {
      WithEntryKeepsWellFormed(entries, bsNames, idx);
      if idx < 0 || idx >= |bsNames| {
        return;
      }
      if exists j :: 0 <= j < |entries| && entries[j].blendshapeIndex == idx {
        return;
      }
      entries := entries + [Entry(idx, bsNames[idx], DefaultPercent)];
    }

    /** Adds every checked blendshape that is in range and not yet listed,
        then clears the check marks. `listed` is the check marks as the
        runtime enumerates them: every checked index, in an order the
        model leaves open. */
    method AddCheckedToEntries(listed: seq<int>)
      requires EntriesWellFormed(entries, bsNames)
      requires forall i :: i in listed <==> i in pickerChecked
      modifies this`entries, this`pickerChecked
      ensures EntriesWellFormed(entries, bsNames) && (old(Valid()) ==> Valid())
      ensures pickerChecked == {}
      ensures entries == WithIndices(old(entries), bsNames, listed)
      ensures AppendsDefaults(old(entries), entries)
      ensures IndexSet(entries) == IndexSet(old(entries)) + InRangeOf(old(pickerChecked), |bsNames|)
    {
      AddEach(listed);
      assert InRangeOf(old(pickerChecked), |bsNames|) == InRangeOf(set i | i in listed, |bsNames|);
      pickerChecked := {};
    }

    /** Calls `AddOneEntry` on each of `idxs`, in order. */
    method AddEach(idxs: seq<int>)
      requires EntriesWellFormed(entries, bsNames)
      modifies this`entries
      ensures EntriesWellFormed(entries, bsNames)
      ensures entries == WithIndices(old(entries), bsNames, idxs)
      ensures AppendsDefaults(old(entries), entries)
      ensures IndexSet(entries) == IndexSet(old(entries)) + InRangeOf(set i | i in idxs, |bsNames|)
    {
      var j := 0;
      while j < |idxs|
        invariant j <= |idxs| && EntriesWellFormed(entries, bsNames)
        invariant entries == WithIndices(old(entries), bsNames, idxs[..j])
      {
        assert idxs[..j + 1] == idxs[..j] + [idxs[j]];
        AddOneEntry(idxs[j]);
        j := j + 1;
      }
      assert idxs[..j] == idxs;
      WithIndicesSpec(old(entries), bsNames, idxs);
    }

    /** The bulk paste box: the pasted text is split into distinct trimmed
        names (see `BulkTokens`), which are then added by exact name. */
    method AddBulkNames(input: string) returns (added: nat, miss: nat)
      requires EntriesWellFormed(entries, bsNames)
      modifies this`entries
      ensures EntriesWellFormed(entries, bsNames) && (old(Valid()) ==> Valid())
      ensures added == FoundCount(BulkTokens(input), bsNames)
      ensures added + miss == |BulkTokens(input)|
      ensures entries == WithNamed(old(entries), bsNames, BulkTokens(input))
      ensures AppendsDefaults(old(entries), entries)
      ensures IndexSet(entries) == IndexSet(old(entries)) + FoundIndices(BulkTokens(input), bsNames)
    {
      var tokens := BulkTokens(input);
      added, miss := AddNamed(tokens);
    }

    /** Looks every token up by exact name and adds the first blendshape
        carrying it; returns how many tokens were found and how many were
        not (a non-zero miss count is reported to the user). */
    method AddNamed(tokens: seq<string>) returns (added: nat, miss: nat)
      requires EntriesWellFormed(entries, bsNames)
      modifies this`entries
      ensures EntriesWellFormed(entries, bsNames)
      ensures added == FoundCount(tokens, bsNames) && added + miss == |tokens|
      ensures entries == WithNamed(old(entries), bsNames, tokens)
      ensures AppendsDefaults(old(entries), entries)
      ensures IndexSet(entries) == IndexSet(old(entries)) + FoundIndices(tokens, bsNames)
    {
      added, miss := 0, 0;
      var j := 0;
      while j < |tokens|
        invariant j <= |tokens| && EntriesWellFormed(entries, bsNames)
        invariant added + miss == j && added == FoundCount(tokens[..j], bsNames)
        invariant entries == WithNamed(old(entries), bsNames, tokens[..j])
      {
        var t := tokens[j];
        assert tokens[..j + 1] == tokens[..j] + [t];
        FoundStep(tokens[..j], t, bsNames);
        var found := AddByName(t);
        if found {
          added := added + 1;
        } else {
          miss := miss + 1;
        }
        j := j + 1;
      }
      assert tokens[..j] == tokens;
      WithNamedSpec(old(entries), bsNames, tokens);
    }

    /** The exact-name add button (and each bulk token): adds the first
        blendshape named exactly `t`; `found` is false when there is none,
        which is reported to the user. */
    method AddByName(t: string) returns (found: bool)
      requires EntriesWellFormed(entries, bsNames)
      modifies this`entries
      ensures EntriesWellFormed(entries, bsNames) && found == (t in bsNames)
      ensures entries == if found then WithEntry(old(entries), bsNames, FindIndex(bsNames, t)) else old(entries)
    {
      var idx := FindIndex(bsNames, t);
      found := idx >= 0;
      if found {
        AddOneEntry(idx);
      }
    }

    /** The add-by-index button: adds blendshape `idx`, or reports that it
        is out of range. */
    method AddByIndex(idx: int) returns (inRange: bool)
      requires EntriesWellFormed(entries, bsNames)
      modifies this`entries
      ensures EntriesWellFormed(entries, bsNames) && (old(Valid()) ==> Valid())
      ensures inRange == InRange(idx, |bsNames|)
      ensures entries == if inRange then WithEntry(old(entries), bsNames, idx) else old(entries)
    {
      inRange := 0 <= idx < |bsNames|;
      if inRange {
        AddOneEntry(idx);
      }
    }

    /** The contains-match add button: adds, in order, every blendshape whose
        name contains `needle` ignoring case; `matched` is false when none
        does, which is reported to the user. */
    method AddContaining(needle: string) returns (matched: bool)
      requires EntriesWellFormed(entries, bsNames)
      modifies this`entries
      ensures EntriesWellFormed(entries, bsNames) && (old(Valid()) ==> Valid())
      ensures matched <==> exists i :: 0 <= i < |bsNames| && ContainsIgnoreCase(bsNames[i], needle)
      ensures entries == WithIndices(old(entries), bsNames, ContainingIndices(bsNames, needle))
      ensures AppendsDefaults(old(entries), entries)
      ensures IndexSet(entries) == IndexSet(old(entries)) + set i | 0 <= i < |bsNames| && ContainsIgnoreCase(bsNames[i], needle)
    {
      var matches := ContainingIndices(bsNames, needle);
      matched := |matches| > 0;
      ContainingAdds(bsNames, needle);
      AddEach(matches);
    }

    /** Ticking (`now`) or unticking a row of the picker. */
    method SetChecked(idx: int, now: bool)
      modifies this`pickerChecked
      ensures pickerChecked == if now then old(pickerChecked) + {idx} else old(pickerChecked) - {idx}
    {
      var was := idx in pickerChecked;
      if now && !was {
        pickerChecked := pickerChecked + {idx};
      }
      if !now && was {
        pickerChecked := pickerChecked - {idx};
      }
    }

    /** "Apply to all entries": every entry takes the batch percentage. */
    method ApplyBatchPercent()
      requires EntriesWellFormed(entries, bsNames)
      modifies this`entries
      ensures EntriesWellFormed(entries, bsNames) && (old(Valid()) ==> Valid())
      ensures |entries| == |old(entries)|
      ensures forall j :: 0 <= j < |entries| ==> entries[j] == old(entries)[j].(newMaxPercent := batchPercent)
    {
      for j := 0 to |entries|
        invariant |entries| == |old(entries)|
        invariant forall k :: 0 <= k < j ==> entries[k] == old(entries)[k].(newMaxPercent := batchPercent)
        invariant forall k :: j <= k < |entries| ==> entries[k] == old(entries)[k]
      {
        entries := entries[j := entries[j].(newMaxPercent := batchPercent)];
      }
    }

    /** Whether a bake stops before building a mesh: no renderer, no mesh, no
        entries, or no entry names a blendshape of the mesh. */
    predicate BakeSkips()
      reads this, srcMesh
    {
      smr == null || srcMesh == null || |entries| == 0 || ScaleMapOf(entries, |srcMesh.targets|) == map[]
    }

    /** A window that is out of date, with entries none of which still names
        a blendshape of the mesh, may bake: the bake stops at the empty-map
        message. */
    lemma OutdatedEntriesSkip()
      requires Reloadable() && smr != null && srcMesh != null && |entries| > 0
      requires forall j :: 0 <= j < |entries| ==> !InRange(entries[j].blendshapeIndex, |srcMesh.targets|)
      ensures ScaleMapOf(entries, |srcMesh.targets|) == map[] && BakeSkips()
    {
      ScaleMapEmpty(entries, |srcMesh.targets|);
    }

    /** Bakes a new mesh: a copy of the current mesh whose blendshapes are
        rebuilt with every selected shape scaled by its entry's factor, then
        optionally assigned to the renderer, and the window reloaded. Does
        nothing when there is no renderer, no mesh, or no entry that names a
        blendshape of the mesh. The window may be out of date: the range
        check is made against the mesh itself, so entries that no longer
        name one of its blendshapes are skipped, and a bake leaves the
        window valid again. */
    method Bake() returns (dst: Mesh?)
      requires Reloadable()
      modifies this`srcMesh, this`bsNames, this`entries, smr
      ensures Reloadable()
      ensures old(Valid()) || !old(BakeSkips()) ==> Valid()
      ensures old(BakeSkips()) ==>
                dst == null && srcMesh == old(srcMesh) && bsNames == old(bsNames) && entries == old(entries)
                && (smr != null ==> smr.sharedMesh == old(smr.sharedMesh))
      ensures !old(BakeSkips()) ==>
                && dst != null && fresh(dst) && dst.Valid() && smr != null
                && dst.name == old(srcMesh.name) + "_Edited"
                && dst.geometry == old(srcMesh.geometry)
                && dst.targets == Rescale(old(srcMesh.targets), ScaleMapOf(old(entries), old(|srcMesh.targets|)))
                && smr.sharedMesh == (if autoAssignToSMR then dst else old(smr.sharedMesh))
                && srcMesh == smr.sharedMesh
                && (srcMesh != null ==> bsNames == srcMesh.Names() && entries == Pruned(old(entries), bsNames))
                && (srcMesh == null ==> bsNames == [] && entries == [])
                && (autoAssignToSMR ==> bsNames == old(srcMesh.Names()))
                && (autoAssignToSMR && EntriesWellFormed(old(entries), old(srcMesh.Names())) ==> entries == old(entries))
    {
      if smr == null || srcMesh == null || |entries| == 0 {
        return null;
      }
      var scaleMap := BuildScaleMap(entries, srcMesh.BlendShapeCount());
      if |scaleMap| == 0 {
        assert scaleMap == map[];
        return null;
      }
      dst := BakeWith(scaleMap);
    }

    /** The part of a bake after the guards: builds the scaled copy, assigns
        it to the renderer when `autoAssignToSMR` is set, and reloads. */
    method BakeWith(scaleMap: map<int, real>) returns (dst: Mesh)
      requires Reloadable() && smr != null && srcMesh != null
      modifies this`srcMesh, this`bsNames, this`entries, smr`sharedMesh
      ensures Valid() && fresh(dst) && dst.Valid()
      ensures dst.name == old(srcMesh.name) + "_Edited" && dst.geometry == old(srcMesh.geometry)
      ensures dst.targets == Rescale(old(srcMesh.targets), scaleMap)
      ensures smr.sharedMesh == (if autoAssignToSMR then dst else old(smr.sharedMesh))
      ensures srcMesh == smr.sharedMesh
      ensures srcMesh != null ==> bsNames == srcMesh.Names() && entries == Pruned(old(entries), bsNames)
      ensures srcMesh == null ==> bsNames == [] && entries == []
      ensures autoAssignToSMR ==> bsNames == old(srcMesh.Names())
      ensures autoAssignToSMR && EntriesWellFormed(old(entries), old(srcMesh.Names())) ==> entries == old(entries)
    {
      var mesh := BakeMesh(srcMesh, scaleMap);
      SameNames(mesh, srcMesh);
      dst := mesh;
      PublishBaked(mesh);
    }

    /** Hands a baked mesh over: assigns it to the renderer when
        `autoAssignToSMR` is set, then reloads. Entries that already fit the
        baked mesh's names survive the reload unchanged. */
    method PublishBaked(mesh: Mesh)
      requires Reloadable() && smr != null && mesh.Valid()
      modifies this`srcMesh, this`bsNames, this`entries, smr`sharedMesh
      ensures Valid()
      ensures smr.sharedMesh == (if autoAssignToSMR then mesh else old(smr.sharedMesh))
      ensures srcMesh == smr.sharedMesh
      ensures srcMesh != null ==> bsNames == srcMesh.Names() && entries == Pruned(old(entries), bsNames)
      ensures srcMesh == null ==> bsNames == [] && entries == []
      ensures autoAssignToSMR ==> bsNames == mesh.Names()
      ensures autoAssignToSMR && EntriesWellFormed(old(entries), mesh.Names()) ==> entries == old(entries)
    {
      if EntriesWellFormed(entries, mesh.Names()) {
        PrunedWellFormedIsIdentity(entries, mesh.Names());
      }
      if autoAssignToSMR {
        smr.sharedMesh := mesh;
      }
      srcMesh := mesh;
      ReloadMeshInfo();
    }
  }
}
