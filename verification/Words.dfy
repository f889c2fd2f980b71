/** Machine words and the return codes of src/errors.h. */
module Words {

  /** A FIFO entry, a peripheral register or a sample slot: uint32_t. */
  type Word = bv32

  const SMI_OK := 0
  const SMI_ERR_NULL_PTR := -2
  const SMI_ERR_ALLOC_FAIL := -11
  const SMI_ERR_BUF_TO_SMALL := -12
  const SMI_ERR_TIMEOUT := -21
  const SMI_ERR_INVALID_WIDTH := -31
  const ETIMEDOUT := 110
  const EINVAL := 22

  function Max(a: int, b: int): (m: int)
    ensures m >= a && m >= b && (m == a || m == b)
  {
    if a >= b then a else b
  }

  function Min(a: int, b: int): (m: int)
    ensures m <= a && m <= b && (m == a || m == b)
  {
    if a <= b then a else b
  }
}
