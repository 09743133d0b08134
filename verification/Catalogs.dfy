/** App catalogs as far as access and policy look at them. */
module Catalogs {
  import opened Wrappers
  import opened Text

  /** An operation; `details` stands for the metadata nothing here interprets. */
  datatype CatalogOperation = CatalogOperation(
    id: string, visible: Option<bool>, allowedRoles: seq<string>, details: string)

  type Catalog = seq<CatalogOperation>

  predicate VisibleByDefault(op: CatalogOperation) {
    op.visible.None? || op.visible.value
  }

  /** What catalog validation demands of ids here: trimmed and not blank. */
  ghost predicate ValidIds(cat: Catalog) {
    forall op :: op in cat ==> Trimmed(op.id) && op.id != ""
  }

  ghost predicate Lists(cat: Catalog, id: string) {
    exists op :: op in cat && op.id == id
  }

  /** The ids of the operations with a property, in catalog order. */
  function PickIds(p: CatalogOperation -> bool, cat: Catalog): (ids: seq<string>)
    ensures forall id :: id in ids <==> exists op :: op in cat && p(op) && op.id == id
  {
    if cat == [] then []
    else
      var n := |cat| - 1;
      assert cat == cat[..n] + [cat[n]];
      if p(cat[n]) then PickIds(p, cat[..n]) + [cat[n].id] else PickIds(p, cat[..n])
  }
}
