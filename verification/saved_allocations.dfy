/**
 * The saved-allocation list of the allocation review page
 * (src/app/view-allocations/page.tsx).
 *
 * A saved entry is identified by (department, phase, regulation). Saving replaces
 * the entry with that identity in place, keeping its original creation time, or
 * appends a new one; removing drops every entry with that identity. The page shows
 * only the entries of the current phase and regulation, and dragging one of them
 * moves it within that view while every other entry keeps its index.
 */
module SavedAllocations {
  import opened Common
  import opened Allocation

  datatype SavedPayload = SavedPayload(
    departmentId: string,
    departmentName: string,
    regulationId: string,
    phase: string,
    rows: seq<AllocationRow>,
    assignedFaculty: map<string, string>,
    facultyDirectory: map<string, string>,
    totalStudents: int,
    sessionsPerDay: int,
    createdAt: int)

  /** The identity an upsert, a removal and a lookup match on. */
  predicate SameEntry(s: SavedPayload, departmentId: string, phase: string, regulationId: string)
  {
    s.departmentId == departmentId && s.phase == phase && s.regulationId == regulationId
  }

  /** `saved.findIndex(...)`: the first entry with that identity, or -1. */
  function FindSaved(saved: seq<SavedPayload>, departmentId: string, phase: string, regulationId: string): (r: int)
    ensures -1 <= r < |saved|
    ensures r >= 0 ==> SameEntry(saved[r], departmentId, phase, regulationId)
    ensures r >= 0 ==> forall j :: 0 <= j < r ==> !SameEntry(saved[j], departmentId, phase, regulationId)
    ensures r == -1 <==> forall j :: 0 <= j < |saved| ==> !SameEntry(saved[j], departmentId, phase, regulationId)
  {
    if |saved| == 0 then -1
    else if SameEntry(saved[0], departmentId, phase, regulationId) then 0
    else
      var r := FindSaved(saved[1..], departmentId, phase, regulationId);
      if r < 0 then -1 else r + 1
  }

  // ------------------------------------------------------------- save (upsert)

  /** The guard of saveAllocationLocally: there are rows, a department and a phase. */
  predicate CanSave(rows: seq<AllocationRow>, departmentId: string, phase: string)
  {
    |rows| > 0 && departmentId != "" && phase != ""
  }

  /** The list after saving p: the entry with p's identity replaced (keeping its creation time), or p appended. */
  function Upserted(saved: seq<SavedPayload>, p: SavedPayload): seq<SavedPayload>
  {
    var i := FindSaved(saved, p.departmentId, p.phase, p.regulationId);
    if i >= 0 then saved[i := p.(createdAt := saved[i].createdAt)] else saved + [p]
  }

  /**
   * Saving changes nothing but the entry with p's identity: an existing entry is
   * replaced at its own index and keeps its creation time, so the length is
   * unchanged; otherwise p is appended at the end.
   */
  lemma UpsertShape(saved: seq<SavedPayload>, p: SavedPayload)
    ensures var r := Upserted(saved, p);
      var exists_ := exists j :: 0 <= j < |saved| && SameEntry(saved[j], p.departmentId, p.phase, p.regulationId);
      && |r| == (if exists_ then |saved| else |saved| + 1)
      && (forall j :: 0 <= j < |saved| && !SameEntry(saved[j], p.departmentId, p.phase, p.regulationId) ==> r[j] == saved[j])
      && (!exists_ ==> r[|saved|] == p)
      && (exists_ ==> exists j :: 0 <= j < |saved| && SameEntry(saved[j], p.departmentId, p.phase, p.regulationId)
                                  && r[j] == p.(createdAt := saved[j].createdAt))
  {
    var i := FindSaved(saved, p.departmentId, p.phase, p.regulationId);
    if i >= 0 {
      assert SameEntry(saved[i], p.departmentId, p.phase, p.regulationId);
    }
  }

  /** After saving, looking p's identity up finds p (with the creation time of the entry it replaced, if any). */
  lemma FindAfterUpsert(saved: seq<SavedPayload>, p: SavedPayload)
    ensures var r := Upserted(saved, p);
      var i := FindSaved(saved, p.departmentId, p.phase, p.regulationId);
      var k := FindSaved(r, p.departmentId, p.phase, p.regulationId);
      && k == (if i >= 0 then i else |saved|)
      && r[k] == p.(createdAt := if i >= 0 then saved[i].createdAt else p.createdAt)
  {
    var i := FindSaved(saved, p.departmentId, p.phase, p.regulationId);
    if i >= 0 {
      FindAfterReplace(saved, p, i);
    } else {
      FindAfterAppend(saved, p);
    }
  }

  lemma FindAfterReplace(saved: seq<SavedPayload>, p: SavedPayload, i: nat)
    requires i < |saved| && FindSaved(saved, p.departmentId, p.phase, p.regulationId) == i
    ensures FindSaved(saved[i := p.(createdAt := saved[i].createdAt)], p.departmentId, p.phase, p.regulationId) == i
  {
    var r := saved[i := p.(createdAt := saved[i].createdAt)];
    assert forall j :: 0 <= j < i ==> r[j] == saved[j];
    FindSavedAt(r, p.departmentId, p.phase, p.regulationId, i);
  }

  lemma FindAfterAppend(saved: seq<SavedPayload>, p: SavedPayload)
    requires FindSaved(saved, p.departmentId, p.phase, p.regulationId) == -1
    ensures FindSaved(saved + [p], p.departmentId, p.phase, p.regulationId) == |saved|
  {
    var r := saved + [p];
    assert forall j :: 0 <= j < |saved| ==> r[j] == saved[j];
    FindSavedAt(r, p.departmentId, p.phase, p.regulationId, |saved|);
  }

  /** The first index with an identity is what the lookup returns. */
  lemma FindSavedAt(saved: seq<SavedPayload>, departmentId: string, phase: string, regulationId: string, k: nat)
    requires k < |saved| && SameEntry(saved[k], departmentId, phase, regulationId)
    requires forall j :: 0 <= j < k ==> !SameEntry(saved[j], departmentId, phase, regulationId)
    ensures FindSaved(saved, departmentId, phase, regulationId) == k
  {
    var r := FindSaved(saved, departmentId, phase, regulationId);
    assert r != -1;
  }

  /** Saving the same payload twice is the same as saving it once. */
  lemma UpsertIdempotent(saved: seq<SavedPayload>, p: SavedPayload)
    ensures Upserted(Upserted(saved, p), p) == Upserted(saved, p)
  {
    FindAfterUpsert(saved, p);
  }

  // ------------------------------------------------------------- remove

  /** removeSaved: every entry with that identity dropped, the rest in order. */
  function Removed(saved: seq<SavedPayload>, departmentId: string, phase: string, regulationId: string): (r: seq<SavedPayload>)
    ensures |r| <= |saved|
    ensures forall x :: x in r <==> x in saved && !SameEntry(x, departmentId, phase, regulationId)
  {
    if |saved| == 0 then []
    else (if SameEntry(saved[0], departmentId, phase, regulationId) then [] else [saved[0]])
         + Removed(saved[1..], departmentId, phase, regulationId)
  }

  /** Removal keeps the others in their original order: it distributes over concatenation ... */
  lemma {:induction false} RemovedAppend(a: seq<SavedPayload>, b: seq<SavedPayload>,
                                         departmentId: string, phase: string, regulationId: string)
    ensures Removed(a + b, departmentId, phase, regulationId)
            == Removed(a, departmentId, phase, regulationId) + Removed(b, departmentId, phase, regulationId)
  {
    if |a| > 0 {
      assert (a + b)[1..] == a[1..] + b;
      RemovedAppend(a[1..], b, departmentId, phase, regulationId);
    } else {
      assert a + b == b;
    }
  }

  /** ... and leaves a list without a matching entry exactly as it was. */
  lemma {:induction false} RemovedNoMatch(saved: seq<SavedPayload>, departmentId: string, phase: string, regulationId: string)
    requires forall j :: 0 <= j < |saved| ==> !SameEntry(saved[j], departmentId, phase, regulationId)
    ensures Removed(saved, departmentId, phase, regulationId) == saved
  {
    if |saved| > 0 {
      RemovedNoMatch(saved[1..], departmentId, phase, regulationId);
      assert [saved[0]] + saved[1..] == saved;
    }
  }

  /** Removing an identity drops a matching entry wherever it sits. */
  lemma RemovedDropsMatch(a: seq<SavedPayload>, x: SavedPayload, b: seq<SavedPayload>,
                          departmentId: string, phase: string, regulationId: string)
    requires SameEntry(x, departmentId, phase, regulationId)
    ensures Removed(a + [x] + b, departmentId, phase, regulationId)
            == Removed(a, departmentId, phase, regulationId) + Removed(b, departmentId, phase, regulationId)
  {
    var rx := Removed([x], departmentId, phase, regulationId);
    assert [x][1..] == [];
    assert rx == Removed([], departmentId, phase, regulationId);
    RemovedAppend(a + [x], b, departmentId, phase, regulationId);
    RemovedAppend(a, [x], departmentId, phase, regulationId);
  }

  /** Removing after saving leaves no entry with that identity, and the other entries as before the save. */
  lemma RemoveAfterUpsert(saved: seq<SavedPayload>, p: SavedPayload)
    ensures var r := Removed(Upserted(saved, p), p.departmentId, p.phase, p.regulationId);
      && FindSaved(r, p.departmentId, p.phase, p.regulationId) == -1
      && r == Removed(saved, p.departmentId, p.phase, p.regulationId)
  {
    var i := FindSaved(saved, p.departmentId, p.phase, p.regulationId);
    var d, ph, rg := p.departmentId, p.phase, p.regulationId;
    var r := Removed(Upserted(saved, p), d, ph, rg);
    assert forall j :: 0 <= j < |r| ==> r[j] in r;
    if i >= 0 {
      var u := Upserted(saved, p);
      assert saved == saved[..i] + [saved[i]] + saved[i + 1..];
      assert u == saved[..i] + [u[i]] + saved[i + 1..];
      RemovedDropsMatch(saved[..i], saved[i], saved[i + 1..], d, ph, rg);
      RemovedDropsMatch(saved[..i], u[i], saved[i + 1..], d, ph, rg);
    } else {
      RemovedDropsMatch(saved, p, [], d, ph, rg);
      assert saved + [p] + [] == saved + [p];
      RemovedNoMatch([], d, ph, rg);
    }
  }

  /** viewSaved's `find`: the first entry with that identity, if any. */
  function Lookup(saved: seq<SavedPayload>, departmentId: string, phase: string, regulationId: string): (r: Option<SavedPayload>)
    ensures r.Some? ==> r.value in saved && SameEntry(r.value, departmentId, phase, regulationId)
    ensures r.None? <==> forall x :: x in saved ==> !SameEntry(x, departmentId, phase, regulationId)
    ensures r.Some? ==> exists i :: 0 <= i < |saved| && saved[i] == r.value
                                  && forall j :: 0 <= j < i ==> !SameEntry(saved[j], departmentId, phase, regulationId)
  {
    var i := FindSaved(saved, departmentId, phase, regulationId);
    if i >= 0 then Some(saved[i]) else None
  }

  // ------------------------------------------------------------- the phase/regulation view

  predicate InView(s: SavedPayload, phase: string, regulationId: string)
  {
    s.phase == phase && s.regulationId == regulationId
  }

  /** filteredSaved: the entries of the current phase and regulation, in list order. */
  function Filtered(saved: seq<SavedPayload>, phase: string, regulationId: string): seq<SavedPayload>
  {
    if |saved| == 0 then []
    else Filtered(saved[..|saved| - 1], phase, regulationId)
         + (if InView(saved[|saved| - 1], phase, regulationId) then [saved[|saved| - 1]] else [])
  }

  /** The entries outside the view, in list order. */
  function Rejected(saved: seq<SavedPayload>, phase: string, regulationId: string): seq<SavedPayload>
  {
    if |saved| == 0 then []
    else Rejected(saved[..|saved| - 1], phase, regulationId)
         + (if InView(saved[|saved| - 1], phase, regulationId) then [] else [saved[|saved| - 1]])
  }

  /** The positions in the full list of the view's entries (onDrop's `indices`). */
  function ViewIndices(saved: seq<SavedPayload>, phase: string, regulationId: string): seq<int>
  {
    if |saved| == 0 then []
    else ViewIndices(saved[..|saved| - 1], phase, regulationId)
         + (if InView(saved[|saved| - 1], phase, regulationId) then [|saved| - 1] else [])
  }

  /**
   * The view's positions are increasing, in range, are exactly the positions of the
   * entries in view, and list the filtered entries one for one.
   */
  lemma {:induction false} ViewIndicesShape(saved: seq<SavedPayload>, phase: string, regulationId: string)
    ensures var v := ViewIndices(saved, phase, regulationId);
      var f := Filtered(saved, phase, regulationId);
      && |v| == |f|
      && (forall p :: 0 <= p < |v| ==> 0 <= v[p] < |saved| && saved[v[p]] == f[p])
      && (forall p, q :: 0 <= p < q < |v| ==> v[p] < v[q])
      && (forall j :: 0 <= j < |saved| ==> (InView(saved[j], phase, regulationId) <==> j in v))
    decreases |saved|
  {
    if |saved| > 0 {
      var init := saved[..|saved| - 1];
      ViewIndicesShape(init, phase, regulationId);
      forall j | 0 <= j < |init|
        ensures saved[j] == init[j]
      {
      }
    }
  }

  /** Two lists with the same in-view pattern have the same view positions. */
  lemma {:induction false} ViewIndicesAgree(s: seq<SavedPayload>, t: seq<SavedPayload>, phase: string, regulationId: string)
    requires |s| == |t|
    requires forall j :: 0 <= j < |s| ==> (InView(s[j], phase, regulationId) <==> InView(t[j], phase, regulationId))
    ensures ViewIndices(s, phase, regulationId) == ViewIndices(t, phase, regulationId)
    decreases |s|
  {
    if |s| > 0 {
      ViewIndicesAgree(s[..|s| - 1], t[..|t| - 1], phase, regulationId);
    }
  }

  /** Same for the entries outside the view, when those are unchanged. */
  lemma {:induction false} RejectedAgree(s: seq<SavedPayload>, t: seq<SavedPayload>, phase: string, regulationId: string)
    requires |s| == |t|
    requires forall j :: 0 <= j < |s| ==> (InView(s[j], phase, regulationId) <==> InView(t[j], phase, regulationId))
    requires forall j :: 0 <= j < |s| && !InView(s[j], phase, regulationId) ==> t[j] == s[j]
    ensures Rejected(s, phase, regulationId) == Rejected(t, phase, regulationId)
    decreases |s|
  {
    if |s| > 0 {
      RejectedAgree(s[..|s| - 1], t[..|t| - 1], phase, regulationId);
    }
  }

  /** A list is, as a multiset, its view plus the rest. */
  lemma {:induction false} SplitByView(saved: seq<SavedPayload>, phase: string, regulationId: string)
    ensures multiset(saved) == multiset(Filtered(saved, phase, regulationId)) + multiset(Rejected(saved, phase, regulationId))
    decreases |saved|
  {
    if |saved| > 0 {
      var init := saved[..|saved| - 1];
      SplitByView(init, phase, regulationId);
      assert saved == init + [saved[|saved| - 1]];
    }
  }

  // ------------------------------------------------------------- moving one entry

  /** `v.splice(i, 1)`: v without its i-th element. */
  function Without<T>(v: seq<T>, i: nat): seq<T>
    requires i < |v|
  {
    v[..i] + v[i + 1..]
  }

  /** `subset.splice(src, 1)` followed by `subset.splice(tgt, 0, moved)`. */
  function Move<T>(v: seq<T>, src: nat, tgt: nat): seq<T>
    requires src < |v| && tgt < |v|
  {
    var w := Without(v, src);
    w[..tgt] + [v[src]] + w[tgt..]
  }

  /**
   * The moved element lands at the target, the others keep their relative order,
   * and nothing is gained or lost.
   */
  lemma MoveProperties<T>(v: seq<T>, src: nat, tgt: nat)
    requires src < |v| && tgt < |v|
    ensures |Move(v, src, tgt)| == |v|
    ensures Move(v, src, tgt)[tgt] == v[src]
    ensures Without(Move(v, src, tgt), tgt) == Without(v, src)
    ensures multiset(Move(v, src, tgt)) == multiset(v)
  {
    var w := Without(v, src);
    var r := Move(v, src, tgt);
    assert r[..tgt] == w[..tgt];
    assert r[tgt + 1..] == w[tgt..];
    assert w[..tgt] + w[tgt..] == w;
    assert v == v[..src] + [v[src]] + v[src + 1..];
    assert multiset(v) == multiset(v[..src]) + multiset([v[src]]) + multiset(v[src + 1..]);
    assert multiset(w) == multiset(v[..src]) + multiset(v[src + 1..]);
    assert multiset(r) == multiset(w[..tgt]) + multiset([v[src]]) + multiset(w[tgt..]);
    assert multiset(w) == multiset(w[..tgt]) + multiset(w[tgt..]);
    assert multiset(r) == multiset(w) + multiset([v[src]]);
    assert multiset(r) == multiset(v);
  }

  /** Dragging back undoes a drag. */
  lemma MoveBack<T>(v: seq<T>, src: nat, tgt: nat)
    requires src < |v| && tgt < |v|
    ensures |Move(v, src, tgt)| == |v| && Move(Move(v, src, tgt), tgt, src) == v
  {
    MoveProperties(v, src, tgt);
    var r := Move(v, src, tgt);
    var back := Move(r, tgt, src);
    MoveProperties(r, tgt, src);
    WithoutDetermines(back, v, src);
  }

  /** A list is determined by its length, its i-th element and what is left without it. */
  lemma WithoutDetermines<T>(a: seq<T>, b: seq<T>, i: nat)
    requires i < |a| == |b| && a[i] == b[i] && Without(a, i) == Without(b, i)
    ensures a == b
  {
    assert a[..i] == Without(a, i)[..i] == Without(b, i)[..i] == b[..i];
    assert a[i + 1..] == Without(a, i)[i..] == Without(b, i)[i..] == b[i + 1..];
    assert a == a[..i] + [a[i]] + a[i + 1..];
    assert b == b[..i] + [b[i]] + b[i + 1..];
  }

  /** onDrop acts only for a numeric source different from the target, both inside a non-empty view. */
  predicate DropAccepted(saved: seq<SavedPayload>, src: Option<int>, target: int, phase: string, regulationId: string)
  {
    var n := |Filtered(saved, phase, regulationId)|;
    src.Some? && src.value != target && n > 0 && 0 <= src.value < n && 0 <= target < n
  }

  /**
   * A drop that rewrites only the view's entries, keeping them in view, is a
   * permutation of the whole list.
   */
  lemma ReorderIsPermutation(s: seq<SavedPayload>, t: seq<SavedPayload>, phase: string, regulationId: string)
    requires |s| == |t|
    requires forall j :: 0 <= j < |s| ==> (InView(s[j], phase, regulationId) <==> InView(t[j], phase, regulationId))
    requires forall j :: 0 <= j < |s| && !InView(s[j], phase, regulationId) ==> t[j] == s[j]
    requires multiset(Filtered(t, phase, regulationId)) == multiset(Filtered(s, phase, regulationId))
    ensures multiset(t) == multiset(s)
  {
    SplitByView(s, phase, regulationId);
    SplitByView(t, phase, regulationId);
    RejectedAgree(s, t, phase, regulationId);
  }

  /** The view holds only entries of the current phase and regulation. */
  lemma {:induction false} FilteredInView(saved: seq<SavedPayload>, phase: string, regulationId: string)
    ensures forall x :: x in Filtered(saved, phase, regulationId) ==> InView(x, phase, regulationId)
    decreases |saved|
  {
    if |saved| > 0 {
      FilteredInView(saved[..|saved| - 1], phase, regulationId);
    }
  }

  /**
   * Writing a list of in-view entries into the view's positions, and touching
   * nothing else, makes that list the new view.
   */
  lemma WriteBackView(s: seq<SavedPayload>, t: seq<SavedPayload>, subset: seq<SavedPayload>,
                      phase: string, regulationId: string)
    requires |t| == |s|
    requires var v := ViewIndices(s, phase, regulationId);
      |subset| == |v| && forall p :: 0 <= p < |v| ==> 0 <= v[p] < |t| && t[v[p]] == subset[p]
    requires forall j :: 0 <= j < |s| && !InView(s[j], phase, regulationId) ==> t[j] == s[j]
    requires forall p :: 0 <= p < |subset| ==> InView(subset[p], phase, regulationId)
    ensures forall j :: 0 <= j < |s| ==> (InView(s[j], phase, regulationId) <==> InView(t[j], phase, regulationId))
    ensures Filtered(t, phase, regulationId) == subset
  {
    var v := ViewIndices(s, phase, regulationId);
    ViewIndicesShape(s, phase, regulationId);
    forall j | 0 <= j < |s|
      ensures InView(s[j], phase, regulationId) <==> InView(t[j], phase, regulationId)
    {
      if InView(s[j], phase, regulationId) {
        var p :| 0 <= p < |v| && v[p] == j;
        assert t[j] == subset[p];
      }
    }
    ViewIndicesAgree(s, t, phase, regulationId);
    ViewIndicesShape(t, phase, regulationId);
  }

  /** The moved view still holds only in-view entries, the same ones as before. */
  lemma MoveStaysInView(saved: seq<SavedPayload>, src: nat, tgt: nat, phase: string, regulationId: string)
    requires src < |Filtered(saved, phase, regulationId)| && tgt < |Filtered(saved, phase, regulationId)|
    ensures var view := Filtered(saved, phase, regulationId);
      && |Move(view, src, tgt)| == |view|
      && multiset(Move(view, src, tgt)) == multiset(view)
      && forall p :: 0 <= p < |view| ==> InView(Move(view, src, tgt)[p], phase, regulationId)
  {
    var view := Filtered(saved, phase, regulationId);
    MoveProperties(view, src, tgt);
    FilteredInView(saved, phase, regulationId);
    var m := Move(view, src, tgt);
    forall p | 0 <= p < |m|
      ensures InView(m[p], phase, regulationId)
    {
      assert m[p] in multiset(m);
      assert m[p] in view;
    }
  }

  /**
   * `indices.forEach((idx, k) => { next[idx] = values[k]; })` on a copy of `base`:
   * each listed position receives its value, every other position keeps its entry.
   */
  method WriteBack<T>(base: seq<T>, indices: seq<int>, values: seq<T>) returns (next: seq<T>)
    requires |indices| == |values|
    requires forall p :: 0 <= p < |indices| ==> 0 <= indices[p] < |base|
    requires forall p, q :: 0 <= p < q < |indices| ==> indices[p] < indices[q]
    ensures |next| == |base|
    ensures forall p :: 0 <= p < |indices| ==> next[indices[p]] == values[p]
    ensures forall j :: 0 <= j < |base| && j !in indices ==> next[j] == base[j]
  {
    next := base;
    for k := 0 to |indices|
      invariant |next| == |base|
      invariant forall p :: 0 <= p < k ==> next[indices[p]] == values[p]
      invariant forall j :: 0 <= j < |base| && j !in indices[..k] ==> next[j] == base[j]
    {
      assert indices[..k + 1] == indices[..k] + [indices[k]];
      next := next[indices[k] := values[k]];
    }
    assert indices[..|indices|] == indices;
  }

  /**
   * The accepted branch of onDrop: the view's entries are picked out, the one at
   * `src` is spliced out and back in at `tgt`, and the result is written back into
   * the view's positions.
   */
  method Reorder(saved: seq<SavedPayload>, indices: seq<int>, src: nat, tgt: nat, phase: string, regulationId: string)
    returns (next: seq<SavedPayload>)
    requires indices == ViewIndices(saved, phase, regulationId)
    requires src < |Filtered(saved, phase, regulationId)| && tgt < |Filtered(saved, phase, regulationId)|
    ensures |next| == |saved|
    ensures forall j :: 0 <= j < |saved| && !InView(saved[j], phase, regulationId) ==> next[j] == saved[j]
    ensures Filtered(next, phase, regulationId) == Move(Filtered(saved, phase, regulationId), src, tgt)
    ensures multiset(next) == multiset(saved)
  {
    ViewIndicesShape(saved, phase, regulationId);
    var subset := seq(|indices|, p requires 0 <= p < |indices| => saved[indices[p]]);
    ghost var view := Filtered(saved, phase, regulationId);
    assert subset == view;
    var item := subset[src];
    subset := subset[..src] + subset[src + 1..];
    subset := subset[..tgt] + [item] + subset[tgt..];
    assert subset == Move(view, src, tgt);
    MoveStaysInView(saved, src, tgt, phase, regulationId);
    next := WriteBack(saved, indices, subset);
    WriteBackView(saved, next, subset, phase, regulationId);
    ReorderIsPermutation(saved, next, phase, regulationId);
  }

  // ------------------------------------------------------------- summary panel

  datatype PackSummary = PackSummary(totalSubjects: nat, totalSessions: nat, uniqueDays: nat, facultyInvolved: nat)

  function SubjectKeys(rows: seq<AllocationRow>): seq<string>
  {
    seq(|rows|, i requires 0 <= i < |rows| => rows[i].subjectCode + "|" + rows[i].subjectName)
  }

  function Dates(rows: seq<AllocationRow>): seq<string>
  {
    seq(|rows|, i requires 0 <= i < |rows| => rows[i].date)
  }

  /** The different subject keys of the rows, as a set. */
  ghost function SubjectKeySet(rows: seq<AllocationRow>): set<string>
  {
    set x | x in rows :: x.subjectCode + "|" + x.subjectName
  }

  /** The different dates of the rows, as a set. */
  ghost function DateSet(rows: seq<AllocationRow>): set<string>
  {
    set x | x in rows :: x.date
  }

  /**
   * SavedSummaryPanel's four counts: distinct `code|name` subjects, rows, distinct
   * dates, distinct faculty ids.
   */
  function Summarize(pack: SavedPayload): (r: PackSummary)
    ensures r.totalSessions == |pack.rows|
    ensures r.totalSubjects == |SubjectKeySet(pack.rows)|
    ensures r.uniqueDays == |DateSet(pack.rows)|
    ensures r.totalSubjects <= r.totalSessions && r.uniqueDays <= r.totalSessions
    ensures r.totalSessions == 0 <==> r.totalSubjects == 0
    ensures r.totalSessions == 0 <==> r.uniqueDays == 0
  {
    var keys := SubjectKeys(pack.rows);
    var dates := Dates(pack.rows);
    DistinctProperties(keys);
    DistinctProperties(dates);
    DistinctCount(keys);
    DistinctCount(dates);
    SubjectKeysSet(pack.rows);
    DatesSet(pack.rows);
    assert |pack.rows| > 0 ==> keys[0] in keys && dates[0] in dates;
    PackSummary(|Distinct(keys)|, |pack.rows|, |Distinct(dates)|, |pack.assignedFaculty.Values|)
  }

  lemma SubjectKeysSet(rows: seq<AllocationRow>)
    ensures (set y | y in SubjectKeys(rows)) == SubjectKeySet(rows)
  {
    var keys := SubjectKeys(rows);
    forall y | y in keys
      ensures y in SubjectKeySet(rows)
    {
      var i :| 0 <= i < |keys| && keys[i] == y;
      assert rows[i] in rows;
    }
    forall x | x in rows
      ensures x.subjectCode + "|" + x.subjectName in keys
    {
      var i :| 0 <= i < |rows| && rows[i] == x;
      assert keys[i] == x.subjectCode + "|" + x.subjectName;
    }
  }

  lemma DatesSet(rows: seq<AllocationRow>)
    ensures (set y | y in Dates(rows)) == DateSet(rows)
  {
    var dates := Dates(rows);
    forall y | y in dates
      ensures y in DateSet(rows)
    {
      var i :| 0 <= i < |dates| && dates[i] == y;
      assert rows[i] in rows;
    }
    forall x | x in rows
      ensures x.date in dates
    {
      var i :| 0 <= i < |rows| && rows[i] == x;
      assert dates[i] == x.date;
    }
  }

  datatype SubjectLine = SubjectLine(code: string, name: string, sessions: nat, days: nat)

  /** `rows.filter(r => r.subjectCode === code)`. */
  function GroupOf(rows: seq<AllocationRow>, code: string): (g: seq<AllocationRow>)
    ensures |g| <= |rows|
    ensures forall x :: x in g <==> x in rows && x.subjectCode == code
  {
    if |rows| == 0 then []
    else GroupOf(rows[..|rows| - 1], code)
         + (if rows[|rows| - 1].subjectCode == code then [rows[|rows| - 1]] else [])
  }

  /** The positions of the rows with that subject code. */
  ghost function CodeRows(rows: seq<AllocationRow>, code: string): set<int>
  {
    set i | 0 <= i < |rows| && rows[i].subjectCode == code
  }

  /** The different dates of the rows with that subject code. */
  ghost function CodeDates(rows: seq<AllocationRow>, code: string): set<string>
  {
    set x | x in rows && x.subjectCode == code :: x.date
  }

  /** The group has one row for each position holding that code. */
  lemma {:induction false} GroupOfCount(rows: seq<AllocationRow>, code: string)
    ensures |GroupOf(rows, code)| == |CodeRows(rows, code)|
  {
    if |rows| == 0 {
      assert CodeRows(rows, code) == {};
    } else {
      var n := |rows| - 1;
      GroupOfCount(rows[..n], code);
      CodeRowsSnoc(rows, code);
    }
  }

  lemma CodeRowsSnoc(rows: seq<AllocationRow>, code: string)
    requires |rows| > 0
    ensures var n := |rows| - 1;
      && n !in CodeRows(rows[..n], code)
      && CodeRows(rows, code) == CodeRows(rows[..n], code) + (if rows[n].subjectCode == code then {n} else {})
  {
    var n := |rows| - 1;
    var init := rows[..n];
    var extra: set<int> := if rows[n].subjectCode == code then {n} else {};
    forall i | i in CodeRows(rows, code)
      ensures i in CodeRows(init, code) + extra
    {
      if i < n {
        assert init[i] == rows[i];
      }
    }
    forall i | i in CodeRows(init, code) + extra
      ensures i in CodeRows(rows, code)
    {
      if i < n {
        assert init[i] == rows[i];
      }
    }
  }

  /** The group's distinct dates are the different dates of the rows with that code. */
  lemma GroupDates(rows: seq<AllocationRow>, code: string)
    ensures |Distinct(Dates(GroupOf(rows, code)))| == |CodeDates(rows, code)|
  {
    var group := GroupOf(rows, code);
    DistinctCount(Dates(group));
    DatesSet(group);
    assert DateSet(group) == CodeDates(rows, code);
  }

  function LineOf(rows: seq<AllocationRow>, key: string): SubjectLine
  {
    var parts := Split(key, '|');
    var group := GroupOf(rows, parts[0]);
    SubjectLine(parts[0], PieceOr(parts, 1), |group|, |Distinct(Dates(group))|)
  }

  /** The per-subject table, one line per distinct (code, name), before its locale sort. */
  function SubjectBreakdown(rows: seq<AllocationRow>): seq<SubjectLine>
  {
    var keys := Distinct(SubjectKeys(rows));
    seq(|keys|, k requires 0 <= k < |keys| => LineOf(rows, keys[k]))
  }

  /**
   * Each line counts as sessions the rows with its code, and as days the different
   * dates of those rows.
   */
  lemma SubjectBreakdownCounts(rows: seq<AllocationRow>)
    ensures var lines := SubjectBreakdown(rows);
      forall k :: 0 <= k < |lines| ==>
        && lines[k].sessions == |CodeRows(rows, lines[k].code)|
        && lines[k].days == |CodeDates(rows, lines[k].code)|
  {
    var lines := SubjectBreakdown(rows);
    forall k | 0 <= k < |lines|
      ensures lines[k].sessions == |CodeRows(rows, lines[k].code)|
      ensures lines[k].days == |CodeDates(rows, lines[k].code)|
    {
      GroupOfCount(rows, lines[k].code);
      GroupDates(rows, lines[k].code);
    }
  }

  /**
   * With `|`-free subject codes each line names the code of some row and counts at
   * least one session, on between one and that many distinct days.
   */
  lemma SubjectBreakdownBounds(rows: seq<AllocationRow>)
    requires forall i :: 0 <= i < |rows| ==> '|' !in rows[i].subjectCode
    ensures var lines := SubjectBreakdown(rows);
      forall k :: 0 <= k < |lines| ==>
        && (exists i :: 0 <= i < |rows| && rows[i].subjectCode == lines[k].code)
        && 1 <= lines[k].days <= lines[k].sessions <= |rows|
  {
    var keys := Distinct(SubjectKeys(rows));
    DistinctProperties(SubjectKeys(rows));
    var lines := SubjectBreakdown(rows);
    forall k | 0 <= k < |lines|
      ensures && (exists i :: 0 <= i < |rows| && rows[i].subjectCode == lines[k].code)
              && 1 <= lines[k].days <= lines[k].sessions <= |rows|
    {
      assert keys[k] in SubjectKeys(rows);
      var i :| 0 <= i < |rows| && SubjectKeys(rows)[i] == keys[k];
      SplitAfterPiece(rows[i].subjectCode, '|', rows[i].subjectName);
      assert keys[k] == rows[i].subjectCode + ['|'] + rows[i].subjectName;
      var group := GroupOf(rows, rows[i].subjectCode);
      assert lines[k].code == rows[i].subjectCode;
      assert rows[i] in group;
      DistinctProperties(Dates(group));
      assert Dates(group)[0] in Dates(group);
    }
  }

  // ------------------------------------------------------------- the page's list

  /**
   * The saved list and the entry being viewed, with the page's handlers: save,
   * remove, view and drop.
   */
  class SavedList {
    var saved: seq<SavedPayload>
    var selected: Option<SavedPayload>

    constructor (initial: seq<SavedPayload>)
      ensures saved == initial && selected == None
    {
      saved := initial;
      selected := None;
    }

    /**
     * saveAllocationLocally, with the clock reading `now` as a parameter and the
     * page's fallbacks (`"Department"` for a missing department name) applied.
     */
    method Save(rows: seq<AllocationRow>, departmentId: string, departmentName: string, regulationId: string,
                phase: string, assignedFaculty: map<string, string>, facultyDirectory: map<string, string>,
                totalStudents: int, sessionsPerDay: int, now: int)
      returns (ok: bool)
      modifies this
      ensures ok == CanSave(rows, departmentId, phase)
      ensures !ok ==> saved == old(saved)
      ensures ok ==> saved == Upserted(old(saved), SavedPayload(departmentId,
                                 if departmentName == "" then "Department" else departmentName,
                                 regulationId, phase, rows, assignedFaculty, facultyDirectory,
                                 totalStudents, sessionsPerDay, now))
      ensures selected == old(selected)
    {
      if !CanSave(rows, departmentId, phase) {
        return false;
      }
      var name := if departmentName == "" then "Department" else departmentName;
      var payload := SavedPayload(departmentId, name, regulationId, phase, rows, assignedFaculty,
                                  facultyDirectory, totalStudents, sessionsPerDay, now);
      var existingIdx := FindSaved(saved, departmentId, phase, regulationId);
      var next: seq<SavedPayload>;
      if existingIdx >= 0 {
        next := saved;
        next := next[existingIdx := payload.(createdAt := next[existingIdx].createdAt)];
      } else {
        next := saved + [payload];
      }
      saved := next;
      return true;
    }

    /** removeSaved for the current phase and regulation. */
    method Remove(departmentId: string, phase: string, regulationId: string)
      modifies this
      ensures saved == Removed(old(saved), departmentId, phase, regulationId)
      ensures selected == old(selected)
    {
      saved := Removed(saved, departmentId, phase, regulationId);
    }

    /** viewSaved: select the matching entry, or leave the selection alone. */
    method View(departmentId: string, phase: string, regulationId: string)
      modifies this
      ensures saved == old(saved)
      ensures selected == (if Lookup(saved, departmentId, phase, regulationId).Some?
                           then Lookup(saved, departmentId, phase, regulationId) else old(selected))
    {
      var p := Lookup(saved, departmentId, phase, regulationId);
      if p.Some? {
        selected := p;
      }
    }

    /**
     * onDrop: `src` is the dragged view position (None when it is not a number).
     * An accepted drop moves that entry to `target` inside the view and writes the
     * view back into the view's own positions, so entries outside the view keep
     * their indices and the list is a permutation of the old one.
     */
    method Drop(src: Option<int>, target: int, phase: string, regulationId: string)
      returns (moved: bool)
      modifies this
      ensures moved == DropAccepted(old(saved), src, target, phase, regulationId)
      ensures !moved ==> saved == old(saved)
      ensures moved ==>
        && |saved| == |old(saved)|
        && (forall j :: 0 <= j < |saved| && !InView(old(saved)[j], phase, regulationId) ==> saved[j] == old(saved)[j])
        && Filtered(saved, phase, regulationId)
           == Move(Filtered(old(saved), phase, regulationId), src.value, target)
        && multiset(saved) == multiset(old(saved))
      ensures selected == old(selected)
    {
      if src.None? || src.value == target {
        return false;
      }
      var indices := ViewIndices(saved, phase, regulationId);
      ViewIndicesShape(saved, phase, regulationId);
      if |indices| == 0 {
        return false;
      }
      var s := src.value;
      if s < 0 || s >= |indices| || target < 0 || target >= |indices| {
        return false;
      }
      var next := Reorder(saved, indices, s, target, phase, regulationId);
      saved := next;
      return true;
    }
  }
}
