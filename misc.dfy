/**
 * The small helpers of khandy/misc.py: to_ntuple, the all_of / any_of /
 * none_of predicates, and the counting loop of get_file_line_count.
 */
module Misc {
  import opened Wrappers

  // to_ntuple

  /** The Python values to_ntuple distinguishes between. */
  datatype PyValue =
    | PyInt(i: int)               // any integral value other than bool (int, numpy integers, ...)
    | PyBool(b: bool)
    | PyStr(s: string)
    | PyList(items: seq<PyValue>)
    | PyTuple(items: seq<PyValue>)
    | PyOther(typeName: string)   // any other object: float, None, dict, set, ...

  /** bool is a subclass of int in Python, so both pass the integral check. */
  predicate IsIntegral(v: PyValue)
  {
    v.PyInt? || v.PyBool?
  }

  function AsInt(v: PyValue): int
    requires IsIntegral(v)
  {
    match v
    case PyInt(i) => i
    case PyBool(b) => if b then 1 else 0
  }

  /** A sequence in the sense of the abstract base class, str excluded. */
  predicate IsNonStrSequence(v: PyValue)
  {
    v.PyList? || v.PyTuple?
  }

  datatype NTupleError =
    | ValueError      // n is not a positive integer
    | AssertionError  // a non-str sequence whose length is not n

  /**
   * to_ntuple(x, n): a non-str sequence must already have n elements and is
   * returned element for element; anything else, a string included, is repeated
   * n times. The check on n comes first.
   */
  function ToNTuple(x: PyValue, n: PyValue): (r: Result<seq<PyValue>, NTupleError>)
    ensures r == Failure(ValueError) <==> !(IsIntegral(n) && AsInt(n) > 0)
    ensures r == Failure(AssertionError) <==>
              IsIntegral(n) && AsInt(n) > 0 && IsNonStrSequence(x) && |x.items| != AsInt(n)
    ensures r.Success? ==> |r.value| == AsInt(n)
    ensures r.Success? && IsNonStrSequence(x) ==> r.value == x.items
    ensures r.Success? && !IsNonStrSequence(x) ==> forall i :: 0 <= i < |r.value| ==> r.value[i] == x
  {
    if !(IsIntegral(n) && AsInt(n) > 0) then Failure(ValueError)
    else if IsNonStrSequence(x) then
      if |x.items| == AsInt(n) then Success(x.items) else Failure(AssertionError)
    else Success(seq(AsInt(n), _ => x))
  }

  /** Feeding a result of to_ntuple back in with the same n gives it back unchanged. */
  lemma ToNTupleIdempotent(x: PyValue, n: PyValue)
    requires ToNTuple(x, n).Success?
    ensures ToNTuple(PyTuple(ToNTuple(x, n).value), n) == ToNTuple(x, n)
  {
  }

  // all_of / any_of / none_of

  function AllOf<T>(s: seq<T>, pred: T -> bool): (r: bool)
    ensures r <==> forall i :: 0 <= i < |s| ==> pred(s[i])
  {
    if s == [] then true else pred(s[0]) && AllOf(s[1..], pred)
  }

  function AnyOf<T>(s: seq<T>, pred: T -> bool): (r: bool)
    ensures r <==> exists i :: 0 <= i < |s| && pred(s[i])
  {
    if s == [] then false else pred(s[0]) || AnyOf(s[1..], pred)
  }

  function NoneOf<T>(s: seq<T>, pred: T -> bool): (r: bool)
    ensures r <==> forall i :: 0 <= i < |s| ==> !pred(s[i])
  {
    !AnyOf(s, pred)
  }

  /** none_of is all_of of the negated predicate, and all_of holds of an empty iterable. */
  lemma PredicateDuality<T>(s: seq<T>, pred: T -> bool)
    ensures NoneOf(s, pred) == AllOf(s, x => !pred(x))
    ensures AnyOf(s, pred) == !AllOf(s, x => !pred(x))
    ensures AllOf([], pred) && !AnyOf([], pred) && NoneOf([], pred)
  {
  }

  // The counting loop of get_file_line_count

  /** The number of characters read from the file per call. */
  const BufferSize: nat := 1024 * 1024 * 8

  function Occurrences(s: string, c: char): (n: nat)
    ensures n <= |s|
  {
    if s == [] then 0 else Occurrences(s[..|s| - 1], c) + (if s[|s| - 1] == c then 1 else 0)
  }

  lemma {:induction false} OccurrencesAppend(a: string, b: string, c: char)
    ensures Occurrences(a + b, c) == Occurrences(a, c) + Occurrences(b, c)
    decreases |b|
  {
    if b == [] {
      assert a + b == a;
    } else {
      var b' := b[..|b| - 1];
      assert (a + b)[..|a + b| - 1] == a + b';
      OccurrencesAppend(a, b', c);
    }
  }

  /** What one read of at most `size` characters at position `pos` returns; empty at the end. */
  function Read(text: string, pos: nat, size: nat): (data: string)
    requires pos <= |text|
  {
    if pos + size <= |text| then text[pos..pos + size] else text[pos..]
  }

  /**
   * get_file_line_count on a file whose (decoded) contents are `text`: reads in
   * slices of BufferSize characters until a read comes back empty, adding up the
   * newlines of each slice. The total is the number of newlines in the file.
   */
  method GetFileLineCount(text: string) returns (lineCount: nat)
    ensures lineCount == Occurrences(text, '\n')
  {
    lineCount := 0;
    var pos := 0;
    while true
      invariant pos <= |text|
      invariant lineCount == Occurrences(text[..pos], '\n')
      decreases |text| - pos
    {
      var data := Read(text, pos, BufferSize);
      if data == [] {
        break;
      }
      OccurrencesAppend(text[..pos], data, '\n');
      assert text[..pos] + data == text[..pos + |data|];
      lineCount := lineCount + Occurrences(data, '\n');
      pos := pos + |data|;
    }
    assert text[..pos] == text;
  }
}
