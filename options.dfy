/** The option records of `src/options.ts` and lodash `merge` over them. */
module Options {
  import opened Wrappers

  datatype Delimiters = Delimiters(left: string, right: string)

  /** Options with every field filled in (`FullOptions`). */
  datatype FullOptions = FullOptions(delimiters: Delimiters, flatten: bool)

  /** Options as a user may give them (`Options`): every field optional. */
  datatype PartialDelimiters = PartialDelimiters(left: Option<string>, right: Option<string>)
  datatype UserOptions = UserOptions(delimiters: Option<PartialDelimiters>, flatten: Option<bool>)

  /** `defaultOptions`: `{{` … `}}` delimiters and flattened destinations. */
  const DefaultOptions := FullOptions(Delimiters("{{", "}}"), true)

  /** An options object with no field set (`undefined` options). */
  const NoOptions := UserOptions(None, None)

  function GivenLeft(user: UserOptions): Option<string> {
    if user.delimiters.Some? then user.delimiters.value.left else None
  }

  function GivenRight(user: UserOptions): Option<string> {
    if user.delimiters.Some? then user.delimiters.value.right else None
  }

  /**
   * `merge({}, base, user)`: a field the user sets replaces the base's value,
   * a field left `undefined` keeps it (the merge is deep, so the two
   * delimiters are merged one by one).
   */
  function Merge(base: FullOptions, user: UserOptions): (r: FullOptions)
    ensures r.delimiters.left == GivenLeft(user).GetOr(base.delimiters.left)
    ensures r.delimiters.right == GivenRight(user).GetOr(base.delimiters.right)
    ensures r.flatten == user.flatten.GetOr(base.flatten)
  {
    var d := match user.delimiters
      case None => base.delimiters
      case Some(p) => Delimiters(p.left.GetOr(base.delimiters.left), p.right.GetOr(base.delimiters.right));
    FullOptions(d, user.flatten.GetOr(base.flatten))
  }

  /** Merging an options object that sets nothing leaves the base as it was. */
  lemma MergeNothing(base: FullOptions)
    ensures Merge(base, NoOptions) == base
  {
  }
}
