/** Elements of a special agent's argument list. The builders put plain
    strings, integers taken unchanged from the rule parameters and whatever
    the password store hands back into one list; turning that list into a
    command line happens in the caller. */
module SpecialAgentArgs {
  datatype Arg =
    | Str(s: string)
    | Int(i: int)
      /** A reference into the password store, resolved when the agent runs. */
    | StoredSecret(passwordId: string, format: string)

  /** A password parameter: given explicitly, or as the id of a stored password. */
  datatype Password = Explicit(password: string) | FromStore(passwordId: string)
}
