/** The web service's asset endpoints, acting on the one shared budget
    manager: add an asset under a new name, remove every asset of a name,
    list them all. A refused request is an error carrying the detail the
    service reports; a successful one carries its status word. */
module AssetRoutes {
  import opened Base
  import opened Assets
  import opened Manager

  /** `POST /assets/`: the asset goes last unless its name is taken. */
  method AddAsset(m: BudgetManager, name: string, value: real) returns (r: Result<string>)
    requires m.Valid()
    modifies m
    ensures m.Valid()
    ensures m.plannedIncome == old(m.plannedIncome) && m.root == old(m.root) && m.heap == old(m.heap)
    ensures m.nodes == old(m.nodes) && m.next == old(m.next)
    ensures HasName(old(m.assets), name) ==> r == Err("Asset name exists") && m.assets == old(m.assets)
    ensures !HasName(old(m.assets), name) ==> r == Ok("added") && m.assets == old(m.assets) + [Asset(name, value)]
  {
    if HasName(m.assets, name) {
      return Err("Asset name exists");
    }
    AppendUnique(m.assets, Asset(name, value));
    m.assets := m.assets + [Asset(name, value)];
    r := Ok("added");
  }

  /** `DELETE /assets/{name}`: every asset of the name goes, the others keep
      their order; an unknown name is not an error. */
  method RemoveAsset(m: BudgetManager, name: string) returns (r: Result<string>)
    requires m.Valid()
    modifies m
    ensures m.Valid()
    ensures m.plannedIncome == old(m.plannedIncome) && m.root == old(m.root) && m.heap == old(m.heap)
    ensures m.nodes == old(m.nodes) && m.next == old(m.next)
    ensures r == Ok("removed")
    ensures m.assets == Filtered(old(m.assets), name) && !HasName(m.assets, name)
  {
    FilteredUnique(m.assets, name);
    m.assets := Filtered(m.assets, name);
    r := Ok("removed");
  }

  /** `GET /assets/`: the stored list, in the order the assets were added. */
  method ListAssets(m: BudgetManager) returns (assets: seq<Asset>)
    requires m.Valid()
    ensures assets == m.assets && UniqueNames(assets)
  {
    assets := m.assets;
  }
}
