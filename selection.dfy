/** The page's elective selection `selectedElectives`: a record from slot codes to an elective
    code or `null`, and the three ways the engine reads it. */
module Selection {
  import opened Wrappers
  import opened Records

  /** `Record<string, string | null>`; `None` stands for `null`. */
  type Assignment = Record<Option<string>>

  /** `selectedElectives[code]` read for truthiness (`if (selectedElective)`): the elective
      assigned to `code` when the key is present and holds a non-empty code; a missing key, `null`
      and `""` are all falsy. */
  function Assigned(sel: Assignment, code: string): Option<string> {
    if code in sel.values && sel.values[code].Some? && sel.values[code].value != "" then sel.values[code]
    else None
  }

  /** `Object.entries(selectedElectives).find(([_, selected]) => selected === e)?.[0]`: the first
      key, in iteration order, whose value is exactly `e`. */
  function FirstSlotHolding(sel: Assignment, e: string): (r: Option<string>)
    ensures r.Some? ==> r.value in sel.keys && sel.Get(r.value) == Some(Some(e))
    ensures r.Some? ==> forall j :: 0 <= j < IndexOf(sel.keys, r.value) ==> sel.Get(sel.keys[j]) != Some(Some(e))
    ensures r.None? ==> forall k :: k in sel.keys ==> sel.Get(k) != Some(Some(e))
  {
    FirstHolding(sel, sel.keys, e)
  }

  function FirstHolding(sel: Assignment, ks: seq<string>, e: string): (r: Option<string>)
    ensures r.Some? ==> r.value in ks && sel.Get(r.value) == Some(Some(e))
    ensures r.Some? ==> forall j :: 0 <= j < IndexOf(ks, r.value) ==> sel.Get(ks[j]) != Some(Some(e))
    ensures r.None? ==> forall k :: k in ks ==> sel.Get(k) != Some(Some(e))
  {
    if ks == [] then None
    else if sel.Get(ks[0]) == Some(Some(e)) then Some(ks[0])
    else
      var r := FirstHolding(sel, ks[1..], e);
      assert forall k :: k in ks ==> k == ks[0] || k in ks[1..];
      r
  }
}
