/**
 * Exit statuses shared by the grid, parser and generator (include/errcode.h).
 */
module ErrCodes {

  /** errcode_t, one constructor per enumerator, in declaration order. */
  datatype ErrCode =
    | Success         // SUCCESS = 0
    | OutOfBounds     // ERRCODE_OUT_OF_BOUNDS = 1
    | Alloc           // ERRCODE_ALLOC = 2
    | EmptyFile       // ERRCODE_EMPTY_FILE = 3
    | GridSize        // ERRCODE_GRID_SIZE = 4
    | NoBlocks        // ERRCODE_NO_BLOCKS = 5
    | UnadmitChar     // ERRCODE_UNADMIT_CHAR = 6
    | ConversionFail  // ERRCODE_CONVERSION_FAIL = 7
    | UnboundVal      // ERRCODE_UNBOUND_VAL = 8
    | MissingVal      // ERRCODE_MISSING_VAL = 9
}
