/** The request record, its enumerations, the validation error, and the
    fluent setters `category`, `num`, `uid` and `size`. */
module Datatype {
  import opened Results

  /** Content rating: `NonR18` is the endpoint's own default. */
  datatype Category = NonR18 | R18

  /** Image size; `Original` is the only variant this model knows. */
  datatype ImageSize = Original

  /** Rust's `start..=end`. */
  datatype RangeInclusive = RangeInclusive(start: int, end: int) {
    predicate Contains(x: int) {
      start <= x <= end
    }
  }

  /** `Error::OutOfRange`; `filed` keeps the source's spelling. */
  datatype Error = OutOfRange(range: RangeInclusive, actual: int, filed: string)

  /** Range accepted by the `num` setter: zero is allowed. */
  const NumRange := RangeInclusive(0, 100)

  /** Values the endpoint assumes when a parameter is not sent. */
  const DefaultNum: nat := 1
  const DefaultSize: seq<ImageSize> := [Original]

  /** One optional slot per field; `None` means "never set". */
  datatype Request = Request(
    category: Option<Category>,
    num: Option<nat>,
    uid: Option<seq<nat>>,
    size: Option<seq<ImageSize>>)
  {
    /** The only field constraint: a stored `num` lies in `NumRange`. */
    predicate Valid() {
      num.Some? ==> NumRange.Contains(num.value)
    }

    /** `Request::default()`: every field unset. */
    static function Default(): (r: Request)
      ensures r.Valid()
      ensures r.category.None? && r.num.None? && r.uid.None? && r.size.None?
    {
      Request(None, None, None, None)
    }

    /** `category`: infallible, returns the builder directly. */
    function SetCategory(c: Category): (r: Request)
      ensures r.category == Some(c)
      ensures r.num == num && r.uid == uid && r.size == size
      ensures Valid() ==> r.Valid()
    {
      this.(category := Some(c))
    }

    /** `num`: succeeds exactly on `0..=100`; otherwise reports the attempted
        value, the range and an empty field name. */
    function SetNum(n: int): (r: Result<Request, Error>)
      ensures r.Ok? <==> 0 <= n <= 100
      ensures r.Ok? ==> r.value.num == Some(n)
      ensures r.Ok? ==> r.value.category == category && r.value.uid == uid && r.value.size == size
      ensures r.Ok? ==> (Valid() ==> r.value.Valid())
      ensures r.Err? ==> r.error == OutOfRange(RangeInclusive(0, 100), n, "")
    {
      if NumRange.Contains(n) then Ok(this.(num := Some(n)))
      else Err(OutOfRange(NumRange, n, ""))
    }

    /** `uid`: every list is accepted, the empty one included. */
    function SetUid(ids: seq<nat>): (r: Result<Request, Error>)
      ensures r.Ok?
      ensures r.value.uid == Some(ids)
      ensures r.value.category == category && r.value.num == num && r.value.size == size
      ensures Valid() ==> r.value.Valid()
    {
      Ok(this.(uid := Some(ids)))
    }

    /** `size`: every list is accepted, the empty one included. */
    function SetSize(sizes: seq<ImageSize>): (r: Result<Request, Error>)
      ensures r.Ok?
      ensures r.value.size == Some(sizes)
      ensures r.value.category == category && r.value.num == num && r.value.uid == uid
      ensures Valid() ==> r.value.Valid()
    {
      Ok(this.(size := Some(sizes)))
    }

    /** The request as the endpoint sees it: every value that equals the
        endpoint's default (a `NonR18` rating, `num` 1, sizes `[Original]`,
        an empty list) collapsed to "unset". */
    function Canonical(): (r: Request)
      ensures r.category.Some? <==> category == Some(R18)
      ensures r.category.Some? ==> r.category.value == R18
      ensures r.num.Some? <==> num.Some? && num.value != DefaultNum
      ensures r.num.Some? ==> r.num == num
      ensures r.uid.Some? <==> uid.Some? && uid.value != []
      ensures r.uid.Some? ==> r.uid == uid
      ensures r.size.Some? <==> size.Some? && size.value != [] && size.value != DefaultSize
      ensures r.size.Some? ==> r.size == size
    {
      Request(
        if category == Some(R18) then category else None,
        if num == Some(DefaultNum) then None else num,
        if uid == Some([]) then None else uid,
        if size == Some([]) || size == Some(DefaultSize) then None else size)
    }
  }
}
