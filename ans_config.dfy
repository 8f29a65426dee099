/** Configuration constants of the entropy back end (ansResidual.h). */
module AnsConfig {

  const RANS_L: int := 4096          // normalisation: the frequency table sums to this
  const PREC: int := 12              // log2(RANS_L)
  const MAX_SYM: int := 4095         // largest symbol
  const ESC_SYM: int := MAX_SYM      // escape code: "see the escape list"
  const ALPHABET: int := MAX_SYM + 1 // number of symbols, the escape included
  const FILE_MAGIC: int := 0x534E4152 // 'RANS' read as a little-endian uint32

  /** The alphabet is exactly as large as the normalisation constant. */
  lemma ConstantsAgree()
    ensures ALPHABET == MAX_SYM + 1 == RANS_L == 4096
    ensures ESC_SYM == MAX_SYM
    ensures RANS_L == 0x1000 && PREC == 12
  {
  }
}
