/**
 * The checkbox part of a submitted checklist: headings in their enumeration
 * order, each holding either an object of items (`itemId -> {checked, label}`)
 * or some other value. Supervisor corrections set `checked` on the first
 * heading that holds the corrected id (`dhl_login/utils/validationHelpers.js`
 * and the `POST /api/validate/:id` handler of `dhl_login/app.js`).
 */
module Checkboxes {
  import opened Wrappers

  /** A checkbox item; `labelText` is its `label` field (the word is reserved in Dafny). */
  datatype Item = Item(checked: bool, labelText: string)

  datatype Entry = Entry(id: string, item: Item)

  /** The value under a heading: an object of items, or a value that is not one (null, a string, ...). */
  datatype Group = Items(entries: seq<Entry>) | Other

  datatype Heading = Heading(key: string, group: Group)

  /** One element of `validatedCheckboxes`. */
  datatype Correction = Correction(id: string, checked: bool)

  /** The first entry with this id. */
  function EntryIndex(es: seq<Entry>, id: string): (r: Option<nat>)
    ensures r.Some? ==> r.value < |es| && es[r.value].id == id
    ensures r.Some? ==> forall j :: 0 <= j < r.value ==> es[j].id != id
    ensures r.None? ==> forall j :: 0 <= j < |es| ==> es[j].id != id
  {
    if es == [] then None
    else if es[0].id == id then Some(0)
    else match EntryIndex(es[1..], id)
      case None => None
      case Some(j) => Some(j + 1)
  }

  /** The heading's value is truthy and has a (truthy) item under `id`. */
  predicate Holds(h: Heading, id: string) {
    h.group.Items? && EntryIndex(h.group.entries, id).Some?
  }

  /** The first heading, in enumeration order, that holds `id`. */
  function FirstHolding(hs: seq<Heading>, id: string): (r: Option<nat>)
    ensures r.Some? ==> r.value < |hs| && Holds(hs[r.value], id)
    ensures r.Some? ==> forall k :: 0 <= k < r.value ==> !Holds(hs[k], id)
    ensures r.None? ==> forall k :: 0 <= k < |hs| ==> !Holds(hs[k], id)
  {
    if hs == [] then None
    else if Holds(hs[0], id) then Some(0)
    else match FirstHolding(hs[1..], id)
      case None => None
      case Some(k) => Some(k + 1)
  }

  /** Item `j` of heading `k` exists. */
  predicate ValidPos(hs: seq<Heading>, k: int, j: int) {
    0 <= k < |hs| && hs[k].group.Items? && 0 <= j < |hs[k].group.entries|
  }

  function IdAt(hs: seq<Heading>, k: int, j: int): string
    requires ValidPos(hs, k, j)
  {
    hs[k].group.entries[j].id
  }

  function CheckedAt(hs: seq<Heading>, k: int, j: int): bool
    requires ValidPos(hs, k, j)
  {
    hs[k].group.entries[j].item.checked
  }

  /** The item a correction of its id reaches: the first such item of the first heading holding it. */
  predicate IsPrimary(hs: seq<Heading>, k: int, j: int)
    requires ValidPos(hs, k, j)
  {
    FirstHolding(hs, IdAt(hs, k, j)) == Some(k) && EntryIndex(hs[k].group.entries, IdAt(hs, k, j)) == Some(j)
  }

  predicate SameEntryShape(e: seq<Entry>, f: seq<Entry>) {
    |e| == |f| && forall j :: 0 <= j < |e| ==> e[j].id == f[j].id && e[j].item.labelText == f[j].item.labelText
  }

  predicate SameHeadingShape(x: Heading, y: Heading) {
    && x.key == y.key && x.group.Items? == y.group.Items?
    && (x.group.Items? ==> SameEntryShape(x.group.entries, y.group.entries))
  }

  /** The same headings, items and labels; only `checked` flags may differ. */
  predicate SameShape(a: seq<Heading>, b: seq<Heading>) {
    |a| == |b| && forall k :: 0 <= k < |a| ==> SameHeadingShape(a[k], b[k])
  }

  /** `checked := v` on the first item `id` of heading `k`. */
  function SetChecked(hs: seq<Heading>, k: nat, id: string, v: bool): (r: seq<Heading>)
    requires k < |hs| && Holds(hs[k], id)
    ensures SameShape(hs, r)
    ensures forall k', j :: ValidPos(hs, k', j) ==>
      CheckedAt(r, k', j) == if k' == k && Some(j) == EntryIndex(hs[k].group.entries, id) then v else CheckedAt(hs, k', j)
  {
    var es := hs[k].group.entries;
    var j := EntryIndex(es, id).value;
    hs[k := Heading(hs[k].key, Items(es[j := Entry(id, Item(v, es[j].item.labelText))]))]
  }

  /** One correction, as one iteration of the `forEach` with its inner `for...in` and `break`. */
  function Apply(hs: seq<Heading>, c: Correction): (r: seq<Heading>) {
    match FirstHolding(hs, c.id)
    case None => hs
    case Some(k) => SetChecked(hs, k, c.id, c.checked)
  }

  /** All corrections, in array order. */
  function ApplyAll(hs: seq<Heading>, cs: seq<Correction>): seq<Heading> {
    if cs == [] then hs else Apply(ApplyAll(hs, cs[..|cs| - 1]), cs[|cs| - 1])
  }

  /** The value of the last correction of `id`, if any. */
  function LastFor(cs: seq<Correction>, id: string): (r: Option<bool>)
    ensures r.Some? <==> exists i :: 0 <= i < |cs| && cs[i].id == id
  {
    if cs == [] then None
    else if cs[|cs| - 1].id == id then Some(cs[|cs| - 1].checked)
    else
      var r := LastFor(cs[..|cs| - 1], id);
      assert forall i :: 0 <= i < |cs| - 1 ==> cs[..|cs| - 1][i] == cs[i];
      r
  }

  lemma SameEntryShapeIndex(e: seq<Entry>, f: seq<Entry>, id: string)
    requires SameEntryShape(e, f)
    ensures EntryIndex(e, id) == EntryIndex(f, id)
  {
    if e != [] {
      assert SameEntryShape(e[1..], f[1..]);
      SameEntryShapeIndex(e[1..], f[1..], id);
    }
  }

  lemma SameShapeHolding(a: seq<Heading>, b: seq<Heading>, id: string)
    requires SameShape(a, b)
    ensures FirstHolding(a, id) == FirstHolding(b, id)
  {
    if a != [] {
      if a[0].group.Items? {
        SameEntryShapeIndex(a[0].group.entries, b[0].group.entries, id);
      }
      assert SameShape(a[1..], b[1..]);
      SameShapeHolding(a[1..], b[1..], id);
    }
  }

  lemma SameShapePrimary(a: seq<Heading>, b: seq<Heading>, k: int, j: int)
    requires SameShape(a, b) && ValidPos(a, k, j)
    ensures ValidPos(b, k, j) && IdAt(b, k, j) == IdAt(a, k, j)
    ensures IsPrimary(a, k, j) == IsPrimary(b, k, j)
  {
    assert SameHeadingShape(a[k], b[k]);
    SameShapeHolding(a, b, IdAt(a, k, j));
    SameEntryShapeIndex(a[k].group.entries, b[k].group.entries, IdAt(a, k, j));
  }

  /** One correction changes exactly the flag of the item it reaches. */
  lemma ApplyEffect(hs: seq<Heading>, c: Correction)
    ensures SameShape(hs, Apply(hs, c))
    ensures forall k, j :: ValidPos(hs, k, j) ==>
      CheckedAt(Apply(hs, c), k, j) == if IdAt(hs, k, j) == c.id && IsPrimary(hs, k, j) then c.checked else CheckedAt(hs, k, j)
  {
    match FirstHolding(hs, c.id)
    case None =>
    case Some(k0) =>
      forall k, j | ValidPos(hs, k, j)
        ensures CheckedAt(Apply(hs, c), k, j) == if IdAt(hs, k, j) == c.id && IsPrimary(hs, k, j) then c.checked else CheckedAt(hs, k, j)
      {
      }
  }

  /**
   * After a list of corrections every item reached by some correction holds
   * the value of the last one for its id; every other flag, every label and
   * every unmatched id are as before.
   */
  lemma {:induction false} ApplyAllEffect(hs: seq<Heading>, cs: seq<Correction>)
    ensures SameShape(hs, ApplyAll(hs, cs))
    ensures forall k, j :: ValidPos(hs, k, j) ==>
      CheckedAt(ApplyAll(hs, cs), k, j) ==
        if IsPrimary(hs, k, j) && LastFor(cs, IdAt(hs, k, j)).Some? then LastFor(cs, IdAt(hs, k, j)).value
        else CheckedAt(hs, k, j)
  {
    if cs != [] {
      var init := cs[..|cs| - 1];
      var c := cs[|cs| - 1];
      var x := ApplyAll(hs, init);
      ApplyAllEffect(hs, init);
      ApplyEffect(x, c);
      forall k, j | ValidPos(hs, k, j)
        ensures CheckedAt(ApplyAll(hs, cs), k, j) ==
          if IsPrimary(hs, k, j) && LastFor(cs, IdAt(hs, k, j)).Some? then LastFor(cs, IdAt(hs, k, j)).value
          else CheckedAt(hs, k, j)
      {
        SameShapePrimary(hs, x, k, j);
      }
    }
  }

  /** Two checkbox maps of the same shape with the same flags are equal. */
  lemma ShapeAndFlagsDetermine(a: seq<Heading>, b: seq<Heading>)
    requires SameShape(a, b)
    requires forall k, j :: ValidPos(a, k, j) ==> CheckedAt(a, k, j) == CheckedAt(b, k, j)
    ensures a == b
  {
    forall k | 0 <= k < |a| ensures a[k] == b[k] {
      assert SameHeadingShape(a[k], b[k]);
      if a[k].group.Items? {
        var e, f := a[k].group.entries, b[k].group.entries;
        forall j | 0 <= j < |e| ensures e[j] == f[j] {
          assert ValidPos(a, k, j);
        }
        assert e == f;
      }
    }
  }

  /** Applying the same corrections twice gives the result of applying them once. */
  lemma ApplyAllIdempotent(hs: seq<Heading>, cs: seq<Correction>)
    ensures ApplyAll(ApplyAll(hs, cs), cs) == ApplyAll(hs, cs)
  {
    var y := ApplyAll(hs, cs);
    var z := ApplyAll(y, cs);
    ApplyAllEffect(hs, cs);
    ApplyAllEffect(y, cs);
    forall k, j | ValidPos(y, k, j) ensures CheckedAt(y, k, j) == CheckedAt(z, k, j) {
      SameShapePrimary(y, hs, k, j);
    }
    ShapeAndFlagsDetermine(y, z);
  }

  /** A correction whose id no heading holds changes nothing. */
  lemma UnmatchedCorrection(hs: seq<Heading>, c: Correction)
    requires forall k :: 0 <= k < |hs| ==> !Holds(hs[k], c.id)
    ensures Apply(hs, c) == hs
  {
  }

  /**
   * `updateCheckboxesFromValidation(formData, validatedCheckboxes)` on the
   * checkbox map: a non-array argument (`None`) changes nothing; otherwise
   * each correction in turn searches the headings in order and stops at the
   * first that holds its id.
   */
  method UpdateCheckboxes(hs: seq<Heading>, corrections: Option<seq<Correction>>) returns (r: seq<Heading>)
    ensures corrections.None? ==> r == hs
    ensures corrections.Some? ==> r == ApplyAll(hs, corrections.value)
  {
    r := hs;
    if corrections.None? {
      return;
    }
    var cs := corrections.value;
    var i := 0;
    while i < |cs|
      invariant 0 <= i <= |cs|
      invariant r == ApplyAll(hs, cs[..i])
    {
      assert cs[..i + 1][..i] == cs[..i];
      var c := cs[i];
      ghost var before := r;
      var k := 0;
      while k < |r|
        invariant 0 <= k <= |r|
        invariant r == before
        invariant forall k' :: 0 <= k' < k ==> !Holds(r[k'], c.id)
      {
        if r[k].group.Items? && EntryIndex(r[k].group.entries, c.id).Some? {
          r := SetChecked(r, k, c.id, c.checked);
          break;
        }
        k := k + 1;
      }
      i := i + 1;
    }
    assert cs[..i] == cs;
  }

  /**
   * The `validatedCheckboxes` object saved with the supervisor's validation:
   * `id -> checked` for every corrected id, a later duplicate overwriting an
   * earlier one.
   */
  function SupervisorMap(cs: seq<Correction>): (m: map<string, bool>)
    ensures forall id :: id in m <==> LastFor(cs, id).Some?
    ensures forall id :: id in m ==> m[id] == LastFor(cs, id).value
  {
    if cs == [] then map[] else SupervisorMap(cs[..|cs| - 1])[cs[|cs| - 1].id := cs[|cs| - 1].checked]
  }

  /** A later correction of an id wins over an earlier one, in the map and in the checkboxes. */
  lemma LaterDuplicateWins(cs: seq<Correction>, a: Correction, b: Correction)
    requires a.id == b.id
    ensures SupervisorMap(cs + [a, b])[a.id] == b.checked
    ensures LastFor(cs + [a, b], a.id) == Some(b.checked)
  {
    var s := cs + [a, b];
    assert s[|s| - 1] == b;
  }
}
