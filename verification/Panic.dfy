/**
 Terminal outcomes. kernel_panic (kernel/Panic/Panic.c) halts the machine, so a panic
 is modelled as the end of the computation, carrying the place that raised it.
 */
module Panic {

  datatype Reason =
    // kernel/Hardware/DeviceTree.c: arguments, header and reservation block
    | NullOutput
    | NullBlob
    | BadMagic
    | TotalSizeTooSmall
    | ReservationMapOutOfBounds
    | StructOutOfBounds
    | StringsOutOfBounds
    | TooManyReservations
    | ReservationOverflow
    // kernel/Hardware/DeviceTree.c: structure block
    | NodeNameMissing
    | NodeNameOverflow
    | NodeAlignOverflow
    | UnmatchedEndNode
    | PropertyMetadataOverflow
    | PropertyLengthOverflow
    | PropertyValueOverflow
    | PropertyNameOverflow
    | AddressCellsNot32Bit
    | SizeCellsNot32Bit
    | CellsNotInitialized
    | UnknownToken
    | NestingMismatch
    | NotOneEndToken
    // kernel/Memory/Memory.c
    | CellsLargerThanReg
    | ZeroCellsOrReg
    | TooManyCells
    | RegNotMultiple
    | TooManyRegions
    | ZeroSizeRegion
    | RegionOverflow

  datatype Result<+T> = Ok(value: T) | Panicked(reason: Reason)
  {
    predicate IsFailure() {
      Panicked?
    }

    function PropagateFailure<U>(): Result<U>
      requires Panicked?
    {
      Panicked(reason)
    }

    function Extract(): T
      requires Ok?
    {
      value
    }
  }
}
