/** The shared selected-block cell. */
module SelectionService {
  import opened Wrappers
  import ChangeCell

  /** A `Block` reference: `Block` does not override `Equals`, so `object.Equals` compares
      identities. */
  type BlockRef = nat

  type Selection = ChangeCell.Cell<Option<BlockRef>>

  /** Nothing is selected at construction. */
  const Initial: Selection := ChangeCell.Cell(None)

  /** The `SelectedBlock` setter: the new state and how many `SelectedBlockChanged` events fired. */
  function SetSelectedBlock(s: Selection, value: Option<BlockRef>): (r: (Selection, nat))
    ensures r.0.value == value
    ensures value != s.value ==> r.1 == 1
    ensures value == s.value ==> r == (s, 0)
  {
    var (s1, raised) := ChangeCell.Set(s, value);
    (s1, if raised then 1 else 0)
  }
}
