/** The kind of property both pages ask for; each page maps it to notary
    fees through its own table. */
module Property {

  /** "Neuf" (new) or "Ancien" (old). */
  datatype PropertyType = Neuf | Ancien
}
