/** The `Category` record: one user-defined bucket of file extensions. */
module Categories {

  newtype byte = x: int | 0 <= x < 256

  /** Unity's `Color32`: four 8-bit channels. */
  datatype Color32 = Color32(r: byte, g: byte, b: byte, a: byte)

  /** The light grey every new category is drawn in. */
  const DefaultColor := Color32(220, 220, 220, 255)

  /** The observable fields of one category at one moment. */
  datatype CategoryValue = CategoryValue(
    title: string,
    extensions: string,  // several extensions, separated by single spaces
    color: Color32,
    amount: int,         // bytes of the files that matched at the last scan
    show: bool)

  /** A freshly constructed category. */
  const Default := CategoryValue("", "", DefaultColor, 0, true)

  /** Two values that differ at most in `amount`: the same configuration. */
  predicate SameConfiguration(u: CategoryValue, v: CategoryValue) {
    u.title == v.title && u.extensions == v.extensions && u.color == v.color && u.show == v.show
  }

  class Category {
    var title: string
    var extensions: string
    var color: Color32
    var amount: int
    var show: bool

    constructor ()
      ensures Value() == Default
    {
      title := "";
      extensions := "";
      color := DefaultColor;
      amount := 0;
      show := true;
    }

    function Value(): CategoryValue
      reads this
    {
      CategoryValue(title, extensions, color, amount, show)
    }
  }
}
