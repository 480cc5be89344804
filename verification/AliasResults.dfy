/** The answers of an alias query. */
module AliasResults {
  datatype AliasResult = NoAlias | MayAlias | PartialAlias | MustAlias
}
