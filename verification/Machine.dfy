/** What the modules share about the machine: word sizes, status codes, and values that may be missing. */
module Machine {

  const TWO16 := 0x1_0000
  const TWO32 := 0x1_0000_0000
  const TWO63 := 0x8000_0000_0000_0000
  const TWO64 := 0x1_0000_0000_0000_0000

  /** Status codes of the firmware; those with the top bit set are errors. */
  const SUCCESS := 0
  const LOAD_ERROR := TWO63 + 1
  const INVALID_PARAMETER := TWO63 + 2
  const BUFFER_TOO_SMALL := TWO63 + 5
  const OUT_OF_RESOURCES := TWO63 + 9
  const NOT_FOUND := TWO63 + 14
  const ACCESS_DENIED := TWO63 + 15

  predicate EfiError(status: nat) {
    status >= TWO63
  }

  /** The codes as numbers (appendix D of UEFI 2.4). */
  lemma StatusCodes()
    ensures SUCCESS == 0 && LOAD_ERROR == 0x8000_0000_0000_0001 && INVALID_PARAMETER == 0x8000_0000_0000_0002
    ensures BUFFER_TOO_SMALL == 0x8000_0000_0000_0005 && OUT_OF_RESOURCES == 0x8000_0000_0000_0009
    ensures NOT_FOUND == 0x8000_0000_0000_000E && ACCESS_DENIED == 0x8000_0000_0000_000F
    ensures forall code: nat :: EfiError(code) <==> code >= 0x8000_0000_0000_0000
  {
  }

  datatype Option<T> = None | Some(value: T)
}
