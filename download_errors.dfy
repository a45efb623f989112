/**
 * The error classification of the downloader in khandy/misc.py: the
 * DownloadStatusCode table (a code and a message per member) and the
 * DownloadError exception built from one of its members, with its textual
 * form "[DownloadError <code>] <message>".
 */
module DownloadErrors {
  import opened Wrappers

  /** The members of DownloadStatusCode; each stands for a (code, message) pair. */
  datatype StatusCode = FileSizeTooLarge | FileSizeTooSmall | FileSizeIsZero | UrlIsNotImage
  {
    /** The member's name, as the enum spells it. */
    function Name(): string
    {
      match this
      case FileSizeTooLarge => "FILE_SIZE_TOO_LARGE"
      case FileSizeTooSmall => "FILE_SIZE_TOO_SMALL"
      case FileSizeIsZero => "FILE_SIZE_IS_ZERO"
      case UrlIsNotImage => "URL_IS_NOT_IMAGE"
    }

    /** The first element of the member's value; the table lookup by code gives the member back. */
    function Code(): (c: int)
      ensures -103 <= c <= -100
      ensures FromCode(c) == Some(this)
    {
      match this
      case FileSizeTooLarge => -100
      case FileSizeTooSmall => -101
      case FileSizeIsZero => -102
      case UrlIsNotImage => -103
    }

    /** The second element of the member's value. */
    function Message(): string
    {
      match this
      case FileSizeTooLarge => "the size of file from url is too large"
      case FileSizeTooSmall => "the size of file from url is too small"
      case FileSizeIsZero => "the size of file from url is zero"
      case UrlIsNotImage => "URL is not an image"
    }
  }

  /** The member whose code is `c`, if there is one. */
  function FromCode(c: int): Option<StatusCode>
  {
    if c == -100 then Some(FileSizeTooLarge)
    else if c == -101 then Some(FileSizeTooSmall)
    else if c == -102 then Some(FileSizeIsZero)
    else if c == -103 then Some(UrlIsNotImage)
    else None
  }

  /** The fields a DownloadError carries once constructed. */
  datatype DownloadError = DownloadError(name: string, code: int, message: string)

  /**
   * The exception raised for `status`, with an optional extra string. The name
   * and the code are the member's; the message is the member's message, followed
   * by ": " and the extra string when one is given, so both parts can be read back.
   */
  function NewError(status: StatusCode, extra: Option<string>): (e: DownloadError)
    ensures e.name == status.Name() && e.code == status.Code()
    ensures FromCode(e.code) == Some(status)
    ensures status.Message() <= e.message
    ensures extra.None? <==> e.message == status.Message()
    ensures extra.Some? ==> e.message[|status.Message()|..] == ": " + extra.value
  {
    match extra
    case None => DownloadError(status.Name(), status.Code(), status.Message())
    case Some(s) => DownloadError(status.Name(), status.Code(), status.Message() + ": " + s)
  }

  /** The class name that opens the textual form of the exception. */
  const ReprPrefix: string := "[DownloadError "

  /** The textual form of the exception (its repr and its str). */
  function Repr(e: DownloadError): (s: string)
    ensures ReprPrefix <= s
    ensures ParseRepr(s) == Some((e.code, e.message))
  {
    ReprParses(e.code, e.message);
    ReprPrefix + IntToString(e.code) + "] " + e.message
  }

  /** Reads the code and the message back out of a textual form. */
  function ParseRepr(s: string): Option<(int, string)>
  {
    if |s| < |ReprPrefix| || s[..|ReprPrefix|] != ReprPrefix then None
    else
      var rest := s[|ReprPrefix|..];
      var k := IndexOf(rest, ']');
      if k + 1 >= |rest| || rest[k + 1] != ' ' then None
      else
        match ParseInt(rest[..k])
        case None => None
        case Some(code) => Some((code, rest[k + 2..]))
  }

  lemma ReprParses(code: int, message: string)
    ensures ParseRepr(ReprPrefix + IntToString(code) + "] " + message) == Some((code, message))
  {
    var digits := IntToString(code);
    var s := ReprPrefix + digits + "] " + message;
    var rest := digits + "] " + message;
    assert s[..|ReprPrefix|] == ReprPrefix;
    assert s[|ReprPrefix|..] == rest;
    var k := IndexOf(rest, ']');
    assert rest[|digits|] == ']';
    assert forall i :: 0 <= i < |digits| ==> rest[i] == digits[i];
    assert k == |digits|;
    assert rest[..k] == digits;
    assert rest[k + 2..] == message;
    ParseIntRoundTrip(code);
  }

  /** Position of the first `c` in `s`, or |s| when there is none. */
  function IndexOf(s: string, c: char): (k: nat)
    ensures k <= |s|
    ensures k < |s| ==> s[k] == c
    ensures forall i :: 0 <= i < k ==> s[i] != c
  {
    if s == [] then 0
    else if s[0] == c then 0
    else 1 + IndexOf(s[1..], c)
  }

  // Decimal text of an integer, as Python's f-string formatting of an int writes it.

  predicate IsDigit(ch: char)
  {
    '0' <= ch <= '9'
  }

  predicate AllDigits(s: string)
  {
    forall i :: 0 <= i < |s| ==> IsDigit(s[i])
  }

  function DigitChar(d: nat): (ch: char)
    requires d < 10
    ensures IsDigit(ch) && DigitValue(ch) == d
  {
    (48 + d) as char
  }

  function DigitValue(ch: char): nat
    requires IsDigit(ch)
  {
    ch as int - 48
  }

  /** Decimal digits of `n`, most significant first, without leading zeros. */
  function NatToString(n: nat): (s: string)
    ensures |s| >= 1 && AllDigits(s)
    ensures |s| > 1 ==> s[0] != '0'
  {
    if n < 10 then [DigitChar(n)]
    else NatToString(n / 10) + [DigitChar(n % 10)]
  }

  function IntToString(i: int): (s: string)
    ensures |s| >= 1
    ensures ']' !in s
  {
    if i < 0 then "-" + NatToString(-i) else NatToString(i)
  }

  function ParseNat(s: string): nat
    requires AllDigits(s)
  {
    if s == [] then 0
    else 10 * ParseNat(s[..|s| - 1]) + DigitValue(s[|s| - 1])
  }

  /** An optional minus sign followed by at least one digit. */
  function ParseInt(s: string): Option<int>
  {
    if |s| >= 2 && s[0] == '-' && AllDigits(s[1..]) then Some(-(ParseNat(s[1..]) as int))
    else if |s| >= 1 && AllDigits(s) then Some(ParseNat(s))
    else None
  }

  lemma {:induction false} ParseNatRoundTrip(n: nat)
    ensures ParseNat(NatToString(n)) == n
  {
    if n >= 10 {
      var s := NatToString(n);
      assert s[..|s| - 1] == NatToString(n / 10);
      ParseNatRoundTrip(n / 10);
    }
  }

  lemma ParseIntRoundTrip(i: int)
    ensures ParseInt(IntToString(i)) == Some(i)
  {
    if i < 0 {
      var s := IntToString(i);
      assert s[1..] == NatToString(-i);
      ParseNatRoundTrip(-i);
    } else {
      ParseNatRoundTrip(i);
    }
  }

  /** Two errors print alike exactly when their codes and messages agree. */
  lemma ReprInjective(e1: DownloadError, e2: DownloadError)
    ensures Repr(e1) == Repr(e2) <==> e1.code == e2.code && e1.message == e2.message
  {
  }
}
