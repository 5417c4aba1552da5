/**
 The typed point model of the partitioned store: the read-side projection
 of an ingest point (`ReadPoint`) and the one-byte on-disk tag of a series'
 value kind (`SeriesDataType`), with its total encoder and partial decoder.
 */
module Storage {

  /** Rust's `u8`. */
  newtype U8 = x: int | 0 <= x < 0x100

  /** Rust's `i64`, the width of a point's timestamp. */
  newtype I64 = x: int | -0x8000_0000_0000_0000 <= x < 0x8000_0000_0000_0000

  /** Rust's `Result`, as returned by `TryFrom`. */
  datatype Result<T, E> = Ok(value: T) | Err(error: E)

  // ---------------------------------------------------------------------
  // ReadPoint
  // ---------------------------------------------------------------------

  /** An ingest point as produced by the line parser: a timestamp, a value
      and whatever else the parser attaches (series key, id, ...), which is
      kept abstract as `rest`. */
  datatype Point<T, Rest> = Point(time: I64, value: T, rest: Rest)

  /** The (time, value) pair handed to read paths; equality is structural. */
  datatype ReadPoint<T> = ReadPoint(time: I64, value: T)

  /** `ReadPoint::from(&Point)`: destructure the point, copy its time and
      clone its value (a clone is equal to the original), drop the rest. */
  function FromPoint<T, Rest>(p: Point<T, Rest>): (r: ReadPoint<T>)
    ensures r.time == p.time && r.value == p.value
  {
    var Point(time, value, _) := p;
    ReadPoint(time, value)
  }

  /** The projection is determined by, and determines, exactly the time and
      the value of the point: points that differ only in their other fields
      give equal read points, and equal read points come from points with
      equal time and value. */
  lemma FromPointDependsOnlyOnTimeAndValue<T, Rest>(p: Point<T, Rest>, q: Point<T, Rest>)
    ensures FromPoint(p) == FromPoint(q) <==> (p.time == q.time && p.value == q.value)
  {
  }

  /** Building a point around a read point's fields and projecting it back
      gives the read point again, whatever the other fields are: the
      projection loses nothing of `time` and `value`. */
  lemma FromPointRecoversReadPoint<T, Rest>(r: ReadPoint<T>, rest: Rest)
    ensures FromPoint(Point(r.time, r.value, rest)) == r
  {
  }

  // ---------------------------------------------------------------------
  // SeriesDataType and its on-disk tag
  // ---------------------------------------------------------------------

  /** The closed set of value kinds a series may hold. */
  datatype SeriesDataType = I64Type | F64Type | StringType | BoolType

  /** The variants in declaration order, which is also the order in which
      the decoder's guards test them. */
  const AllVariants: seq<SeriesDataType> := [I64Type, F64Type, StringType, BoolType]

  /** `u8::from(t)`: the `as u8` cast of the variant's explicit `#[repr(u8)]`
      discriminant (`I64 = 0` ... `Bool = 3`). Those discriminants happen to
      equal each variant's position in the declaration, which the contract
      records: every tag is below 4 and no two variants share one. */
  function ToU8(t: SeriesDataType): (b: U8)
    ensures (b as int) < |AllVariants| && AllVariants[b as int] == t
  {
    match t
    case I64Type => 0
    case F64Type => 1
    case StringType => 2
    case BoolType => 3
  }

  /** The decoder's guard chain, generalised to any list of variants `vs`:
      the first variant whose tag equals `b`, or `Err(b)` when none does.
      The source's four-arm chain is the call with `vs == AllVariants`
      (`TryFromU8`); other lists appear only in the lemmas about the search. */
  function FirstWithTag(vs: seq<SeriesDataType>, b: U8): (r: Result<SeriesDataType, U8>)
    ensures r.Ok? ==> r.value in vs && ToU8(r.value) == b
    ensures r.Err? ==> r.error == b && forall v :: v in vs ==> ToU8(v) != b
    decreases |vs|
  {
    if vs == [] then Err(b)
    else if ToU8(vs[0]) == b then Ok(vs[0])
    else FirstWithTag(vs[1..], b)
  }

  /** The search over a concatenation `vs + ws` is the search over `vs`
      when `vs` accepts the byte, and the search over `ws` otherwise. */
  lemma {:induction false} FirstWithTagAppend(vs: seq<SeriesDataType>, ws: seq<SeriesDataType>, b: U8)
    ensures FirstWithTag(vs + ws, b)
         == if FirstWithTag(vs, b).Ok? then FirstWithTag(vs, b) else FirstWithTag(ws, b)
  {
    if vs == [] {
      assert vs + ws == ws;
    } else {
      assert (vs + ws)[0] == vs[0];
      assert (vs + ws)[1..] == vs[1..] + ws;
      FirstWithTagAppend(vs[1..], ws, b);
    }
  }

  /** `SeriesDataType::try_from(b)`: succeeds exactly on the bytes 0..=3,
      with the variant whose tag is `b`; every other byte is rejected with
      that same byte as the error, and no byte makes it fail otherwise. */
  function TryFromU8(b: U8): (r: Result<SeriesDataType, U8>)
    ensures r.Ok? <==> b < 4
    ensures r.Ok? ==> ToU8(r.value) == b
    ensures r.Err? ==> r.error == b
  {
    FirstWithTag(AllVariants, b)
  }

  /** The tag table written out: I64 -> 0, F64 -> 1, String -> 2, Bool -> 3. */
  lemma EncodingTable()
    ensures ToU8(I64Type) == 0 && ToU8(F64Type) == 1
    ensures ToU8(StringType) == 2 && ToU8(BoolType) == 3
  {
  }

  /** Distinct variants never share an on-disk tag. */
  lemma EncodingInjective(s: SeriesDataType, t: SeriesDataType)
    ensures ToU8(s) == ToU8(t) ==> s == t
  {
  }

  /** Decoding the tag of any variant gives that variant back. */
  lemma DecodeEncode(t: SeriesDataType)
    ensures TryFromU8(ToU8(t)) == Ok(t)
  {
  }

  /** A byte that decodes to a variant is that variant's tag. */
  lemma EncodeDecode(b: U8, t: SeriesDataType)
    requires TryFromU8(b) == Ok(t)
    ensures ToU8(t) == b
  {
  }

  /** Every byte in 4..=255 is rejected, and the error is the byte itself. */
  lemma DecodeRejectsUnknown(b: U8)
    requires 4 <= b
    ensures TryFromU8(b) == Err(b)
  {
  }

  /** The bytes the decoder accepts are exactly the tags the encoder
      produces. */
  lemma DecodeDomainIsEncodeImage(b: U8)
    ensures TryFromU8(b).Ok? <==> exists t :: ToU8(t) == b
  {
  }
}
