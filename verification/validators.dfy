/** The validators a declaration can attach: `read`, `range` and `oneof`.

    The string-to-`T` conversion they build on (`filter_string_stream`) is not
    part of this model; wherever a validator needs it, it is a parameter. */
module Validators {
  import opened Wrappers

  /** `read<T>`: the filter that passes its argument through. */
  function Read<T>(data: T): (r: T)
    ensures r == data
  {
    data
  }

  /** `range<T>`, on integers: the two bounds it was built with. */
  datatype Range = Range(begin: int, end: int)

  /** `range::operator()`: the test `begin <= data && data <= end`, returned
      as a `T`, which for an integer type is 1 when it holds and 0 otherwise. */
  function RangeCall(r: Range, data: int): (v: int)
    ensures v == 0 || v == 1
    ensures v == 1 <==> r.begin <= data <= r.end
  {
    if r.begin <= data && data <= r.end then 1 else 0
  }

  /** `filter_oneof<T>`: the candidate values, in the order given. */
  datatype OneOf<T> = OneOf(candidates: seq<T>)

  /** `oneof(first, args...)`: `first` followed by the other arguments. */
  function MakeOneOf<T>(first: T, rest: seq<T>): (r: OneOf<T>)
    ensures |r.candidates| == |rest| + 1
    ensures r.candidates[0] == first && r.candidates[1..] == rest
  {
    OneOf([first] + rest)
  }

  /** The exception `filter_oneof::operator()` throws for a value it rejects. */
  function NotAllowed(value: string): Error {
    DomainError("The input value [" + value + "] is not allowed")
  }

  /** `std::find`: the position of the first element equal to `x`, or the
      length of `xs` when there is none. */
  method Find<T(==)>(xs: seq<T>, x: T) returns (i: nat)
    ensures i <= |xs|
    ensures i < |xs| ==> xs[i] == x
    ensures forall k :: 0 <= k < i ==> xs[k] != x
  {
    i := 0;
    while i < |xs| && xs[i] != x
      invariant i <= |xs|
      invariant forall k :: 0 <= k < i ==> xs[k] != x
      decreases |xs| - i
    {
      i := i + 1;
    }
  }

  /** `filter_oneof::operator()`: convert the raw value, then accept the
      result exactly when it is one of the candidates; otherwise throw. */
  method OneOfCall<T(==)>(f: OneOf<T>, convert: string -> T, value: string) returns (r: Result<T, Error>)
    ensures r.Success? <==> convert(value) in f.candidates
    ensures r.Success? ==> r.value == convert(value)
    ensures r.Failure? ==> r.error == NotAllowed(value)
  {
    var converted := convert(value);
    var i := Find(f.candidates, converted);
    if i == |f.candidates| {
      r := Failure(NotAllowed(value));
    } else {
      r := Success(converted);
    }
  }

  /** The candidates of `oneof(1, 2, 3, 4, 5)`: a raw "6" that converts to 6
      is rejected, a raw "3" that converts to 3 is accepted. */
  method OneOfOneToFive(convert: string -> int) returns (six: Result<int, Error>, three: Result<int, Error>)
    requires convert("6") == 6 && convert("3") == 3
    ensures six == Failure(NotAllowed("6"))
    ensures three == Success(3)
  {
    var f := MakeOneOf(1, [2, 3, 4, 5]);
    six := OneOfCall(f, convert, "6");
    three := OneOfCall(f, convert, "3");
    assert f.candidates[2] == 3;
  }
}
