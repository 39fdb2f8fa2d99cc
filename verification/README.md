# lolicon_api request builder — Dafny model

`lolicon_api` wraps one HTTP endpoint, `https://api.lolicon.app/setu/v2`.
Its only logic is the `Request` builder and the conversion of a request
into the endpoint URL. A caller starts from `Request::default()` and chains
the setters `category`, `num`, `uid` and `size`. `num` validates its
argument against `0..=100`. A failing `num` returns
`Error::OutOfRange { range, actual, filed }`, and `?` ends the chain at that
first error. `String::from(req)` (also `req.to_string()`) gives the URL:
the prefix `https://api.lolicon.app/setu/v2?`, then `&key=value` for every
field that differs from the endpoint default. Keys come in ascending name
order, and a `&` comes before every token, the first included.

The model is purely functional:

- `results.dfy` — `Option` and `Result`, usable with `:-` the way Rust uses `?`.
- `datatype.dfy` (module `Datatype`) — `Category`, `ImageSize`,
  `RangeInclusive`, `Error`, and the `Request` record with one `Option`
  slot per field. It holds the pure setters and `Canonical`, which
  collapses every default-equivalent value to "unset".
- `convert.dfy` (module `Convert`) — the serializer. It keeps a field table
  in key order (`num`, `r18`, `size`, `uid`), has a per-field `Render`, and
  builds `ToUrl`.
- `decimal.dfy`, `text.dfy` — decimal rendering and parsing, plus
  join/split on a separator character and lexicographic order.
- `decode.dfy` (module `Decode`) — a URL reader that exists only in the
  model. It is the inverse the serializer is checked against:
  `FromUrl(ToUrl(r)) == Some(r.Canonical())`.
- `lib.dfy` (module `Lib`) — setter chains joined with `?`, and the
  crate's doc example and unit tests as lemmas.

Facts of `src/lib.rs` the model keeps:

- `num` accepts 0: the error's range is `0..=100` (`src/lib.rs:34`), and
  `num(0)` succeeds and is sent as `num=0` (`src/lib.rs:44`).
- The error's field name `filed` is the empty string (`src/lib.rs:36`).
- Parameters are sorted by name (`src/lib.rs:21`), so `num` comes before
  `r18`, which comes before `uid`.
- `num(1)` and `size(&[ImageSize::Original])` are defaults and are not
  sent (`src/lib.rs:12`, `src/lib.rs:14`, `src/lib.rs:18`). The same holds
  for a `NonR18` rating (`src/lib.rs:43-44`).

Modelling choices for what `src/lib.rs` does not fix:

- `src/lib.rs` does not fix the separator between the elements of a
  multi-element `uid` or `size` list. `ToUrl` takes it as a parameter
  `sep`. The round-trip lemmas `Decode.RoundTrip` and
  `Decode.UrlDeterminesCanonical` need `IsListSeparator(sep)`: `sep` is
  no digit, no lowercase ASCII letter, and neither `&` nor `=`. They do
  not hold for every `sep`; with `sep = '&'` a two-element `uid` list
  cannot be read back. The test-vector lemmas `Lib.DocExample`,
  `Lib.ZeroAsNum` and `Lib.DefaultListsOmitted` hold for every `sep`,
  because they use only lists of at most one element.
- `uid(&[])` and `size(&[])` are accepted (`src/lib.rs:49-51`), but
  `src/lib.rs` does not show how an empty list is rendered. The model
  renders it as nothing, the same as unset.
- `src/lib.rs` never emits a `size` token. The model assumes the key
  `size` and the element name `original`.

## Model

| member | source | states |
|---|---|---|
| Datatype.Request.Default | src/lib.rs:10 | `Request::default()` has every field unset and is valid |
| Datatype.Request.SetCategory | src/lib.rs:11 | `category` cannot fail; it sets the rating and leaves the other fields and validity unchanged |
| Datatype.Request.SetNum | src/lib.rs:29-45 | `num(n)` succeeds exactly when 0 <= n <= 100 and then only changes `num`; otherwise the error is `OutOfRange { range: 0..=100, actual: n, filed: "" }` |
| Datatype.Request.SetUid | src/lib.rs:13 | `uid` accepts every list, the empty one included, and only changes `uid` |
| Datatype.Request.SetSize | src/lib.rs:14 | `size` accepts every list, the empty one included, and only changes `size` |
| Datatype.Request.Canonical | src/lib.rs:21 | which values count as defaults: a field survives exactly when it is non-default (R18 rating, `num` other than 1, non-empty `uid`, `size` other than `[]` and `[Original]`) |
| Decimal.FromNat | src/lib.rs:44 | numbers are sent as plain decimal text: non-empty, digits only, a leading `0` only for zero itself |
| Decimal.ParseFromNat | src/lib.rs:44 | reading the decimal text back gives the number |
| Decimal.FromNatInjective | src/lib.rs:44 | two numbers have the same decimal text if and only if they are equal, so distinct values give distinct tokens |
| Convert.ToUrl | src/lib.rs:16-18 | `String::from(req)` starts with the fixed prefix `https://api.lolicon.app/setu/v2?`, followed by the query text of the emitted tokens |
| Convert.TokensAscending | src/lib.rs:21 | emitted keys are strictly ascending by name and pairwise distinct |
| Convert.KeyEmittedIff | src/lib.rs:21 | a field's key is emitted if and only if the field holds a non-default value |
| Convert.ToUrlCanonical | src/lib.rs:21 | replacing default-equivalent values by "unset" leaves the URL unchanged |
| Convert.BareUrlIff | src/lib.rs:16-21 | the URL is the bare prefix if and only if every field is unset or default-equivalent |
| Decode.RoundTrip | src/lib.rs:16-21 | reading the URL of a valid request back gives that request with its defaults collapsed: the URL loses nothing but default values |
| Decode.UrlDeterminesCanonical | src/lib.rs:21 | two valid requests give the same URL if and only if they agree on every non-default value |
| Lib.Apply | src/lib.rs:48-55 | one chained call fails exactly when it is a `num` outside `0..=100`, whatever the builder, and its error carries that value |
| Lib.Run | src/lib.rs:49-53 | a `?` chain that fails carries the error of one of its failing calls, and a successful chain keeps the builder valid |
| Lib.RunFirstError | src/lib.rs:48-55 | a `?` chain returns the error of its first failing call |
| Lib.RunOkIff | src/lib.rs:48-55 | a `?` chain succeeds if and only if none of its calls fails, and the result stays valid |
| Lib.Commute | src/lib.rs:21 | calls on different fields give the same result in either order, errors included |
| Lib.LastWriteWins | src/lib.rs:10-14 | a later call on the same field fully replaces an earlier successful one |
| Lib.CategoryRendering | src/lib.rs:43-44 | `category(NonR18)` gives the same URL as no rating; `category(R18)` adds exactly the token `r18=1` in its sorted place |
| Lib.NumRendering | src/lib.rs:42-45 | `num(n)` for an accepted n other than 1, 0 included, emits `num=n` as the first token; `num(1)` gives the same URL as no `num` |
| Lib.DefaultListsOmitted | src/lib.rs:12-21 | `size(&[Original])`, `size(&[])` and `uid(&[])` give the same URL as leaving the field unset |
| Lib.DocExample | src/lib.rs:10-18 | the doc example chain succeeds and yields `https://api.lolicon.app/setu/v2?&r18=1&uid=16731` |
| Lib.ZeroAsNum | src/lib.rs:41-45 | `num(0)` succeeds; followed by `category(NonR18)` it yields `https://api.lolicon.app/setu/v2?&num=0` |
| Lib.OutOfRangeChain | src/lib.rs:48-55 | the `out_of_range` helper succeeds exactly when the value given to `num` lies in `0..=100`, and otherwise returns `OutOfRange { range: 0..=100, actual: n, filed: "" }` |
| Lib.NumOutOfRange | src/lib.rs:29-39 | `test_num_out_of_range`: the `out_of_range` chain with 200 returns `OutOfRange { range: 0..=100, actual: 200, filed: "" }` |

## Left out

- Fields and rules that `src/lib.rs` does not exercise: `keyword`, `tag`, `proxy`, the date bounds, the auto-conversion flag, and any `Category` or `ImageSize` variant other than `NonR18`, `R18` and `Original`. They have no call, key name or constraint in `src/lib.rs` to model them from.
- Datatype.Request.SetUid: no length limit is modelled; the model accepts every list. The doc example and tests in `src/lib.rs` call `uid` only with `[]` and one-element lists, and both are accepted, so they fix no limit.
- Datatype.Request.SetSize: no length limit is modelled; the model accepts every list. The doc example and tests in `src/lib.rs` call `size` only with `[]` and one-element lists, and both are accepted, so they fix no limit.
- Convert.Render: the key `size` and the wire name `original` are assumed, not taken from `src/lib.rs`, which never emits a `size` token. `Convert.TokensAscending` depends on where `size` sorts.
- Convert.Render: a non-empty list is always one token whose elements are joined by a single character `sep`. A repeated-key form such as `&uid=1&uid=2` cannot be expressed by any `sep`. The "pairwise distinct keys" part of `Convert.TokensAscending` depends on this single-token choice: under a repeated-key form keys would repeat, and `src/lib.rs:21` promises only that they are sorted by name.
- Datatype.Request.Canonical: an empty `uid` or `size` list is assumed to count as a default and is not sent; `src/lib.rs` shows that the setters accept empty lists but not how they are rendered.
- Lib.DefaultListsOmitted: the omission of `size(&[])` and `uid(&[])` rests on that same assumption; only the omission of `size(&[Original])` is shown by `src/lib.rs`.
- Integer widths: `num` and `uid` elements are unbounded naturals and the `num` argument is an unbounded integer. `src/lib.rs` does not give the Rust parameter types, so no wrap-around or truncation is modelled.
- The HTTP request and response handling: the crate only produces the URL, and the transport is external.
- Rust trait plumbing. `Display` and `From<Request> for String` both give `Convert.ToUrl`, and nothing else about them (derived `Default`, `PartialEq` on `Error`) carries logic.
