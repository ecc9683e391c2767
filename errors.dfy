/**
 * The error taxonomy of kvrs (`StorageError`, `DataFormatError`) and the
 * messages their `Display` implementations produce, together with the
 * `Result` and `Option` wrappers the reader's outcomes are expressed in.
 */
module Errors {
  import opened Format

  datatype Option<+T> = None | Some(value: T)

  /** Rust's `Result<T, E>`. */
  datatype Result<+T, +E> = Ok(value: T) | Err(error: E)

  /**
   * The kinds of `std::io::ErrorKind` a read from an in-memory cursor can
   * produce: running past the end of the buffer is the only failure.
   */
  datatype IoErrorKind = UnexpectedEof

  /** Wrong data format. */
  datatype DataFormatError =
    | MissedIdentifier
    | IncorrectVersion(version: uint8)

  /** Top-level error of the library. */
  datatype StorageError =
    | IO(kind: IoErrorKind)
    | DataFormat(format: DataFormatError)
    | FailedLoadIndex
    | SerializationError

  // ---------------------------------------------------------------------------
  // Decimal formatting of integers, as `{}` prints them.

  function Digit(d: nat): (c: char)
    requires d < 10
    ensures '0' <= c <= '9'
  {
    ['0', '1', '2', '3', '4', '5', '6', '7', '8', '9'][d]
  }

  predicate IsDigits(s: string) {
    forall i :: 0 <= i < |s| ==> '0' <= s[i] <= '9'
  }

  /** `n` in decimal: digits only, at least one, no leading zero. */
  function Decimal(n: nat): (s: string)
    ensures |s| >= 1 && IsDigits(s)
    ensures s[0] == '0' ==> n == 0
    ensures n < 10 <==> |s| == 1
  {
    if n < 10 then [Digit(n)] else Decimal(n / 10) + [Digit(n % 10)]
  }

  /** The number a string of decimal digits stands for. */
  function DecimalValue(s: string): nat
    requires IsDigits(s)
  {
    if s == [] then 0 else DecimalValue(s[..|s| - 1]) * 10 + (s[|s| - 1] as int - '0' as int)
  }

  /** Reading back the decimal digits for `n` gives `n`. */
  lemma {:induction false} DecimalValueOfDecimal(n: nat)
    ensures DecimalValue(Decimal(n)) == n
  {
    var s := Decimal(n);
    if n >= 10 {
      assert s[..|s| - 1] == Decimal(n / 10);
      DecimalValueOfDecimal(n / 10);
    }
  }

  /** Different numbers are printed differently. */
  lemma DecimalInjective(a: nat, b: nat)
    ensures Decimal(a) == Decimal(b) <==> a == b
  {
    DecimalValueOfDecimal(a);
    DecimalValueOfDecimal(b);
  }

  // ---------------------------------------------------------------------------
  // Display messages.

  const MISSED_IDENTIFIER_MESSAGE: string := "Missing identifier at the beginning of the data file."
  const INCORRECT_VERSION_HEAD: string := "Incorrect version number of the data file format: "
  const INCORRECT_VERSION_MIDDLE: string := ". The older version has the number "
  const DATA_FORMAT_HEAD: string := "Data format error: "
  const FAILED_LOAD_INDEX_MESSAGE: string := "Failed to load index"
  const SERIALIZATION_ERROR_MESSAGE: string := "Failed to serialize something"

  /** `Display` of a `DataFormatError`. */
  function DataFormatMessage(e: DataFormatError): (m: string)
    ensures e.MissedIdentifier? ==> m == "Missing identifier at the beginning of the data file."
    ensures e.IncorrectVersion? ==>
      m == "Incorrect version number of the data file format: " + Decimal(e.version) +
           ". The older version has the number 1"
  {
    match e
    case MissedIdentifier => MISSED_IDENTIFIER_MESSAGE
    case IncorrectVersion(n) =>
      INCORRECT_VERSION_HEAD + Decimal(n) + INCORRECT_VERSION_MIDDLE + Decimal(OLDEST_VERSION)
  }

  /**
   * `Display` of a `StorageError`. An I/O error shows the text of its
   * `std::io::ErrorKind`, which is `ioText` here.
   */
  function StorageMessage(e: StorageError, ioText: IoErrorKind -> string): (m: string)
    ensures e.IO? ==> m == ioText(e.kind)
    ensures e.DataFormat? ==> m == "Data format error: " + DataFormatMessage(e.format)
    ensures e.FailedLoadIndex? ==> m == "Failed to load index"
    ensures e.SerializationError? ==> m == "Failed to serialize something"
  {
    match e
    case IO(k) => ioText(k)
    case DataFormat(f) => DATA_FORMAT_HEAD + DataFormatMessage(f)
    case FailedLoadIndex => FAILED_LOAD_INDEX_MESSAGE
    case SerializationError => SERIALIZATION_ERROR_MESSAGE
  }

  /** An incorrect-version message names the offending version, so it determines it. */
  lemma IncorrectVersionMessageInjective(a: uint8, b: uint8)
    ensures DataFormatMessage(IncorrectVersion(a)) == DataFormatMessage(IncorrectVersion(b)) <==> a == b
  {
    var h, t := INCORRECT_VERSION_HEAD, INCORRECT_VERSION_MIDDLE + "1";
    var ma, mb := DataFormatMessage(IncorrectVersion(a)), DataFormatMessage(IncorrectVersion(b));
    if ma == mb {
      assert |Decimal(a)| == |Decimal(b)|;
      assert Decimal(a) == ma[|h|..|ma| - |t|];
      assert Decimal(b) == mb[|h|..|mb| - |t|];
      DecimalInjective(a, b);
    }
  }

  /** Different data format errors are displayed differently. */
  lemma DataFormatMessageInjective(a: DataFormatError, b: DataFormatError)
    ensures DataFormatMessage(a) == DataFormatMessage(b) <==> a == b
  {
    if a.IncorrectVersion? && b.IncorrectVersion? {
      IncorrectVersionMessageInjective(a.version, b.version);
    } else if a != b {
      // One of them is MissedIdentifier, whose message is the shorter one.
      assert |MISSED_IDENTIFIER_MESSAGE| < |INCORRECT_VERSION_HEAD| + |INCORRECT_VERSION_MIDDLE|;
      assert |DataFormatMessage(a)| != |DataFormatMessage(b)|;
    }
  }

  /**
   * Apart from I/O errors, whose text comes from the standard library,
   * different storage errors are displayed differently.
   */
  lemma StorageMessageInjective(a: StorageError, b: StorageError, ioText: IoErrorKind -> string)
    requires !a.IO? && !b.IO?
    ensures StorageMessage(a, ioText) == StorageMessage(b, ioText) <==> a == b
  {
    var ma, mb := StorageMessage(a, ioText), StorageMessage(b, ioText);
    if a.DataFormat? && b.DataFormat? {
      if ma == mb {
        var h := DATA_FORMAT_HEAD;
        assert ma[|h|..] == DataFormatMessage(a.format) && mb[|h|..] == DataFormatMessage(b.format);
        DataFormatMessageInjective(a.format, b.format);
      }
    } else if a != b {
      // 'D' against 'F', or "Failed to l" against "Failed to s".
      assert ma[0] != mb[0] || ma[10] != mb[10];
    }
  }

  /** Equality of data format errors is structural: versions are compared. */
  lemma IncorrectVersionEquality(a: uint8, b: uint8)
    ensures IncorrectVersion(a) == IncorrectVersion(b) <==> a == b
  {
  }

  /** The message the test vector with version byte 123 is rejected with. */
  lemma IncorrectVersion123Message()
    ensures DataFormatMessage(IncorrectVersion(123)) ==
      INCORRECT_VERSION_HEAD + "123" + INCORRECT_VERSION_MIDDLE + "1"
  {
    assert Decimal(1) == "1";
    assert Decimal(12) == Decimal(1) + "2" == "12";
    assert Decimal(123) == Decimal(12) + "3" == "123";
  }
}
