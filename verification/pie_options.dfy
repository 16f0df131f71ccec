/** The shared pie-label switch. */
module PieOptions {
  import ChangeCell

  type Options = ChangeCell.Cell<bool>

  /** Labels are hidden by default. */
  const Initial: Options := ChangeCell.Cell(false)

  /** The `ShowLabels` setter: the new state and the `PropertyChanged` names raised. */
  function SetShowLabels(o: Options, value: bool): (r: (Options, seq<string>))
    ensures r.0.value == value
    ensures value != o.value ==> r.1 == ["ShowLabels"]
    ensures value == o.value ==> r == (o, [])
  {
    var (o1, raised) := ChangeCell.Set(o, value);
    (o1, if raised then ["ShowLabels"] else [])
  }
}
