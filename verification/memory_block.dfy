/** The memory-block record held by the list. Its own class is not part of
    this model. The list only ever compares blocks with `equals`; the model
    assumes that `equals` is value equality on (base address, length), so a
    datatype with structural equality stands for the record. */
module MemoryBlocks {

  datatype MemoryBlock = MemoryBlock(baseAddress: int, length: int)
}
