/** Vocabulary shared by every layer: nullable values, the three exception
    kinds the services throw, decimal rendering of ids for messages, and the
    slice of an ordered result that a `PageRequest.of(page, size)` selects. */
module Common {

  /** A Java reference that may be null. */
  datatype Option<+T> = None | Some(value: T)

  /** NotFoundException, ValidationException and AccessDeniedException, each with its message. */
  datatype Error =
    | NotFound(message: string)
    | Validation(message: string)
    | AccessDenied(message: string)
    /** Any other exception, answered with status 500 by the catch-all handler. */
    | Internal(message: string)

  /** The outcome of a service call: a value, or the exception it throws. */
  datatype Result<+T> = Ok(value: T) | Err(error: Error)

  function DigitChar(d: nat): (c: char)
    requires d < 10
    ensures '0' <= c <= '9'
  {
    (48 + d) as char
  }

  predicate IsDigits(s: string)
  {
    forall k :: 0 <= k < |s| ==> '0' <= s[k] <= '9'
  }

  /** The number a string of decimal digits denotes, most significant first. */
  function DecimalValue(s: string): nat
    requires IsDigits(s)
  {
    if s == [] then 0 else DecimalValue(s[..|s| - 1]) * 10 + (s[|s| - 1] as int - 48)
  }

  /** `%d` applied to a non-negative id: its decimal digits, without leading zeros. */
  function NatToString(n: nat): (s: string)
    ensures |s| >= 1 && IsDigits(s)
    ensures DecimalValue(s) == n
    ensures |s| > 1 ==> s[0] != '0'
  {
    if n < 10 then [DigitChar(n)]
    else
      var front := NatToString(n / 10);
      assert (front + [DigitChar(n % 10)])[..|front|] == front;
      front + [DigitChar(n % 10)]
  }

  /** Distinct ids give distinct message texts. */
  lemma NatToStringInjective(a: nat, b: nat)
    requires a != b
    ensures NatToString(a) != NatToString(b)
  {
  }

  /** The messages the services throw for a missing user or item and for an
      offset that is not a multiple of the page size. */
  function UserNotFound(id: nat): Error
  {
    NotFound("User ID = " + NatToString(id) + " not found!")
  }

  function ItemNotFound(id: nat): Error
  {
    NotFound("Item ID = " + NatToString(id) + " not found!")
  }

  const PageMismatch: Error := Validation("Element index and page size mismatch!")

  function Abs(x: int): nat { if x < 0 then -x else x }

  /** Java's `%` on `int`: it truncates toward zero, so the remainder has the
      sign of the dividend. */
  function JavaRem(a: int, b: int): int
    requires b != 0
  {
    if a < 0 then -(Abs(a) % Abs(b)) else Abs(a) % Abs(b)
  }

  /** Java's `/` on `int`, truncating toward zero. */
  function JavaDiv(a: int, b: int): int
    requires b != 0
  {
    if (a < 0) != (b < 0) then -(Abs(a) / Abs(b)) else Abs(a) / Abs(b)
  }

  /** The `ArithmeticException` of an integer division by zero, answered with 500. */
  const DivisionByZero: Error := Internal("/ by zero")

  /** The `IllegalArgumentException`s of `PageRequest.of`, answered with 500. */
  const NegativePageIndex: Error := Internal("Page index must not be less than zero!")
  const PageSizeBelowOne: Error := Internal("Page size must not be less than one!")

  /** The paging prologue of the booking listings: `fromElement % size` must
      be 0, then `PageRequest.of(fromElement / size, size)` checks the page
      index and then the size. The page index, or the first error raised. */
  function PageIndex(from: int, size: int): (r: Result<nat>)
    ensures size == 0 ==> r == Err(DivisionByZero)
    ensures size != 0 && JavaRem(from, size) != 0 ==> r == Err(PageMismatch)
    ensures size != 0 && JavaRem(from, size) == 0 && JavaDiv(from, size) < 0 ==> r == Err(NegativePageIndex)
    ensures size < 0 && JavaRem(from, size) == 0 && JavaDiv(from, size) >= 0 ==> r == Err(PageSizeBelowOne)
    ensures r.Ok? <==> size > 0 && from >= 0 && from % size == 0
    ensures r.Ok? ==> r.value == from / size
  {
    if size == 0 then Err(DivisionByZero)
    else if JavaRem(from, size) != 0 then Err(PageMismatch)
    else if JavaDiv(from, size) < 0 then Err(NegativePageIndex)
    else if size < 1 then Err(PageSizeBelowOne)
    else Ok(JavaDiv(from, size))
  }

  /** Java's remainder differs from the Euclidean one on a negative dividend:
      `-7 % 5` is -2 in Java. So a negative multiple of the size passes the
      modulo check and fails only at `PageRequest.of`. */
  lemma NegativeOffsets()
    ensures JavaRem(-7, 5) == -2 && -7 % 5 == 3
    ensures PageIndex(-7, 5) == Err(PageMismatch)
    ensures PageIndex(-10, 5) == Err(NegativePageIndex)
    ensures PageIndex(0, -5) == Err(PageSizeBelowOne)
  {
  }

  /** How many of `total` ordered rows page `page` of length `size` holds:
      a full page, the remainder on the last page, none past the end. */
  function PageLength(total: nat, page: nat, size: nat): nat
  {
    if total <= page * size then 0
    else if total - page * size < size then total - page * size
    else size
  }

  /** The rows of an ordered result that page `page` of length `size`
      holds: positions `page * size` up to, excluding, `page * size + size`. */
  function PageOf<T>(rows: seq<T>, page: nat, size: nat): (r: seq<T>)
    requires size > 0
    ensures |r| <= size
    ensures |r| == PageLength(|rows|, page, size)
    ensures forall k :: 0 <= k < |r| ==> page * size + k < |rows| && r[k] == rows[page * size + k]
    ensures page * size + size <= |rows| ==> |r| == size
    ensures page * size < |rows| ==> |r| > 0
    ensures page == 0 && |rows| <= size ==> r == rows
  {
    var lo := if page * size < |rows| then page * size else |rows|;
    var hi := if lo + size < |rows| then lo + size else |rows|;
    rows[lo..hi]
  }
}
