# Typed point model of the Delorean partitioned store

This project models, in Dafny, the typed point model that the storage layer of
the Delorean time-series store (`delorean_partitioned_store/src/storage.rs`)
defines for the rest of the engine:

- `ReadPoint<T>`, the `(time, value)` pair handed to read paths, and its
  conversion from an ingest `Point<T>` of the line parser, which keeps the
  timestamp and the value and drops every other field;
- `SeriesDataType`, the closed set of value kinds a series may hold
  (`I64`, `F64`, `String`, `Bool`), whose one-byte tag is written to disk:
  a total encoder (`From<SeriesDataType> for u8`) and a partial decoder
  (`TryFrom<u8>`) that rejects unknown bytes by returning the byte itself.

Everything lives in one module, `Storage` (`storage.dfy`). Rust's `u8` and
`i64` are the newtypes `U8` and `I64`; Rust's `Result` is the datatype
`Result` with `Ok`/`Err`. The variants of `SeriesDataType` are named
`I64Type`, `F64Type`, `StringType` and `BoolType` because `I64` names the
integer type in the model. The decoder's `match` with guards is modelled as
what it does: it tests the variants in declaration order (`AllVariants`) and
returns the first whose tag equals the byte (`FirstWithTag`), or `Err` of
the byte when none does.

## Model

| member | source | states |
|---|---|---|
| `Storage.FromPoint` | delorean_partitioned_store/src/storage.rs:24-31 | the read point has exactly the ingest point's `time` and `value`; the conversion is total |
| `Storage.FromPointDependsOnlyOnTimeAndValue` | delorean_partitioned_store/src/storage.rs:18-31 | two ingest points give equal read points (equality of values taken as identity) if and only if they agree on `time` and `value`: every other field is ignored |
| `Storage.FromPointRecoversReadPoint` | delorean_partitioned_store/src/storage.rs:24-31 | any read point is recovered by projecting a point built around its time and value, whatever the other fields are: nothing of `time`/`value` is lost |
| `Storage.ToU8` | delorean_partitioned_store/src/storage.rs:37-51 | encoding is total; every tag is below 4 and is the variant's explicit discriminant, which equals its position in the declaration, so no two variants share a tag |
| `Storage.FirstWithTag` | delorean_partitioned_store/src/storage.rs:59-65 | the guard chain, generalised to any list of variants (the source's chain is the list of all four, as `TryFromU8` uses it), returns a listed variant whose tag is the byte, or `Err` carrying the byte exactly when no listed variant has that tag |
| `Storage.TryFromU8` | delorean_partitioned_store/src/storage.rs:53-66 | decoding succeeds exactly for bytes below 4, with a variant whose tag is the byte; otherwise the error is the input byte; it is total (never panics) |
| `Storage.FirstWithTagAppend` | delorean_partitioned_store/src/storage.rs:59-65 | the first-match search over `vs + ws` is the search over `vs` when `vs` accepts the byte, and the search over `ws` otherwise |
| `Storage.EncodingTable` | delorean_partitioned_store/src/storage.rs:39-45 | the tag table is exactly `I64 -> 0`, `F64 -> 1`, `String -> 2`, `Bool -> 3` |
| `Storage.EncodingInjective` | delorean_partitioned_store/src/storage.rs:39-51 | distinct variants never share a tag |
| `Storage.DecodeEncode` | delorean_partitioned_store/src/storage.rs:47-66 | for every variant, decoding its tag gives `Ok` of that variant |
| `Storage.EncodeDecode` | delorean_partitioned_store/src/storage.rs:59-63 | a byte that decodes to `Ok(t)` is `t`'s tag |
| `Storage.DecodeRejectsUnknown` | delorean_partitioned_store/src/storage.rs:53-64 | every byte in `4..=255` decodes to `Err` of that same byte |
| `Storage.DecodeDomainIsEncodeImage` | delorean_partitioned_store/src/storage.rs:47-65 | the bytes the decoder accepts are exactly the tags the encoder produces |

## Left out

- `wal/src/io.rs` is not part of this model: it is a thin wrapper over
  operating-system calls (a vectored positioned write, or a cloned handle
  that seeks and writes twice) chosen per platform at build time; its only
  behaviour beyond error tagging is concurrent I/O. In particular the model
  claims nothing about a lock-protected header-and-data write: on the
  fallback path the lock guard is dropped as soon as it is taken
  (`wal/src/io.rs:64`), so those writes are not serialised.
- The modules declared at `delorean_partitioned_store/src/storage.rs:8-14`
  (`block`, `database`, `memdb`, `partitioned_store`, `predicate`,
  `remote_partition`, `s3_partition`) are not part of this model; their
  source is not available.
- The line parser's `Point` is not part of this model beyond its `time` and
  `value` fields; all its other fields are one abstract component `rest`
  of a type parameter, and no parsing behaviour is modelled.
- The `value.clone()` in `ReadPoint::from` is modelled as producing a value equal
  to the original, which is what `Clone` promises for the value types a
  series holds; a user-defined `Clone` that does otherwise is not modelled.
- Floating-point semantics: `F64` is only a tag here.
- The derived `Debug`, `Clone` and `Copy` implementations carry no behaviour
  to model. The derived `PartialEq` on `SeriesDataType` is modelled by
  Dafny's equality on the datatype.
- FromPointDependsOnlyOnTimeAndValue: equality of values is modelled as
  identity; Rust's derived `PartialEq` on `ReadPoint<f64>` compares values
  with `f64`'s `==`, which treats NaN as unequal to itself and `0.0` as
  equal to `-0.0`, so the lemma is not a statement about that equality.
- Appending a new variant with a fresh tag (the commented-out `U64`) is not
  modelled: the variant type is closed, so no lemma speaks about how a
  future variant would decode.
