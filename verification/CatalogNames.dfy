/** Identities shared by the parts of the config catalog generator. */
module CatalogNames {
  /** A type, member or module-level name. */
  datatype Name = Name(text: string)

  /** A source file. */
  type File = nat

  /** A declaration. */
  type DeclId = nat
}
