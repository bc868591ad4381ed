/** The encoder's compression modes. */
module UBTyping {

  /** How eagerly the binary writer uses container-level type and size hints. */
  datatype Typing =
    | WEAK        // never use type hints
    | STRONG      // always use type hints
    | BALANCED    // prefer sized, typeless containers
    | COMPRESSED  // prefer the smallest option

  /** The mode used when a writer is opened on a file without naming one. */
  const DefaultFileTyping: Typing := COMPRESSED

  /** The four modes, in declaration order. */
  const AllTypings: seq<Typing> := [WEAK, STRONG, BALANCED, COMPRESSED]

  lemma ExactlyFourModes(t: Typing)
    ensures t in AllTypings
    ensures |AllTypings| == 4
    ensures forall i, j :: 0 <= i < j < |AllTypings| ==> AllTypings[i] != AllTypings[j]
  {
  }
}
