/** The crate's public surface as exercised by its doc example and unit
    tests: setter chains joined with `?`, and the URLs they produce. */
module Lib {
  import opened Results
  import opened Datatype
  import Convert
  import Decimal
  import Text

  /** One setter call in a chain. */
  datatype Call =
    | CallCategory(c: Category)
    | CallNum(n: int)
    | CallUid(ids: seq<nat>)
    | CallSize(sizes: seq<ImageSize>)

  /** The field a call writes. */
  function Target(call: Call): Convert.Field {
    match call
    case CallCategory(_) => Convert.R18
    case CallNum(_) => Convert.Num
    case CallUid(_) => Convert.Uid
    case CallSize(_) => Convert.Size
  }

  /** Whether a call is rejected; this never depends on the builder. */
  predicate Fails(call: Call) {
    call.CallNum? && !NumRange.Contains(call.n)
  }

  /** One call; `category` cannot fail and is lifted into `Ok`. */
  function Apply(r: Request, call: Call): (res: Result<Request, Error>)
    ensures res.Err? <==> Fails(call)
    ensures res.Err? ==> res.error == OutOfRange(RangeInclusive(0, 100), call.n, "")
    ensures res.Ok? && r.Valid() ==> res.value.Valid()
  {
    match call
    case CallCategory(c) => Ok(r.SetCategory(c))
    case CallNum(n) => r.SetNum(n)
    case CallUid(ids) => r.SetUid(ids)
    case CallSize(sizes) => r.SetSize(sizes)
  }

  /** A chain `r.f1(..)?.f2(..)?...`: the first failing call ends it. */
  function Run(r: Request, calls: seq<Call>): (res: Result<Request, Error>)
    ensures res.Err? ==> exists i :: 0 <= i < |calls| && Fails(calls[i])
                          && res.error == OutOfRange(RangeInclusive(0, 100), calls[i].n, "")
    ensures res.Ok? && r.Valid() ==> res.value.Valid()
    decreases |calls|
  {
    if |calls| == 0 then Ok(r)
    else
      var next :- Apply(r, calls[0]);
      Run(next, calls[1..])
  }

  /** Fail-fast: the chain's error is the error of its first failing call. */
  lemma {:induction false} RunFirstError(r: Request, calls: seq<Call>, i: nat)
    requires i < |calls| && Fails(calls[i])
    requires forall j :: 0 <= j < i ==> !Fails(calls[j])
    ensures Run(r, calls) == Err(OutOfRange(RangeInclusive(0, 100), calls[i].n, ""))
    decreases i
  {
    if i > 0 {
      var next := Apply(r, calls[0]).value;
      assert forall j :: 0 <= j < i - 1 ==> calls[1..][j] == calls[j + 1];
      RunFirstError(next, calls[1..], i - 1);
    }
  }

  /** A chain succeeds exactly when none of its calls fails, and then it
      keeps the builder valid. */
  lemma {:induction false} RunOkIff(r: Request, calls: seq<Call>)
    ensures Run(r, calls).Ok? <==> forall j :: 0 <= j < |calls| ==> !Fails(calls[j])
    ensures Run(r, calls).Ok? && r.Valid() ==> Run(r, calls).value.Valid()
    decreases |calls|
  {
    if |calls| > 0 {
      if !Fails(calls[0]) {
        var next := Apply(r, calls[0]).value;
        RunOkIff(next, calls[1..]);
        assert forall j :: 0 <= j < |calls| - 1 ==> calls[1..][j] == calls[j + 1];
        assert forall j :: 0 < j < |calls| ==> calls[j] == calls[1..][j - 1];
      }
    }
  }

  /** Setters on different fields commute, errors included: at most one of
      two such calls can be `num`, the only one that can fail. */
  lemma Commute(r: Request, a: Call, b: Call)
    requires Target(a) != Target(b)
    ensures Run(r, [a, b]) == Run(r, [b, a])
  {
    assert [a, b][1..] == [b] && [b, a][1..] == [a];
  }

  /** Last write wins: a successful call is wholly overwritten by a later
      call on the same field. */
  lemma LastWriteWins(r: Request, a: Call, b: Call)
    requires Target(a) == Target(b)
    requires !Fails(a)
    ensures Run(r, [a, b]) == Run(r, [b])
  {
    assert [a, b][1..] == [b];
  }

  /** `category(NonR18)` emits nothing and `category(R18)` emits `r18=1`. */
  lemma CategoryRendering(r: Request, sep: char)
    ensures Convert.ToUrl(r.SetCategory(NonR18), sep) == Convert.ToUrl(r.(category := None), sep)
    ensures Convert.Tokens(r.SetCategory(R18), sep)
         == Convert.Piece(r, Convert.Num, sep) + [Convert.Token("r18", "1")]
          + Convert.Piece(r, Convert.Size, sep) + Convert.Piece(r, Convert.Uid, sep)
  {
    Convert.ToUrlCanonical(r.SetCategory(NonR18), sep);
    Convert.ToUrlCanonical(r.(category := None), sep);
    Convert.TokensPieces(r.SetCategory(R18), sep);
  }

  /** `num(n)` emits `num=n` for every accepted `n` but 1, zero included;
      `num(1)` is the endpoint default and emits nothing. */
  lemma NumRendering(r: Request, n: int, sep: char)
    requires 0 <= n <= 100
    ensures n != 1 ==> Convert.Tokens(r.SetNum(n).value, sep)[0] == Convert.Token("num", Decimal.FromNat(n))
    ensures n == 1 ==> Convert.ToUrl(r.SetNum(n).value, sep) == Convert.ToUrl(r.(num := None), sep)
  {
    Convert.TokensPieces(r.SetNum(n).value, sep);
    Convert.ToUrlCanonical(r.SetNum(n).value, sep);
    Convert.ToUrlCanonical(r.(num := None), sep);
  }

  /** `size(&[Original])`, `size(&[])` and `uid(&[])` emit nothing. */
  lemma DefaultListsOmitted(r: Request, sep: char)
    ensures Convert.ToUrl(r.SetSize([Original]).value, sep) == Convert.ToUrl(r.(size := None), sep)
    ensures Convert.ToUrl(r.SetSize([]).value, sep) == Convert.ToUrl(r.(size := None), sep)
    ensures Convert.ToUrl(r.SetUid([]).value, sep) == Convert.ToUrl(r.(uid := None), sep)
  {
    Convert.ToUrlCanonical(r.SetSize([Original]).value, sep);
    Convert.ToUrlCanonical(r.SetSize([]).value, sep);
    Convert.ToUrlCanonical(r.SetUid([]).value, sep);
    Convert.ToUrlCanonical(r.(size := None), sep);
    Convert.ToUrlCanonical(r.(uid := None), sep);
  }

  /** The doc example: rating R18, one image, author 16731, original size. */
  lemma DocExample(sep: char)
    ensures Run(Request.Default(), [CallCategory(R18), CallNum(1), CallUid([16731]), CallSize([Original])]).Ok?
    ensures Convert.ToUrl(Run(Request.Default(), [CallCategory(R18), CallNum(1), CallUid([16731]), CallSize([Original])]).value, sep)
         == "https://api.lolicon.app/setu/v2?&r18=1&uid=16731"
  {
    DocRun();
    var r := Request(Some(R18), Some(1), Some([16731]), Some([Original]));
    var ts := [Convert.Token("r18", "1"), Convert.Token("uid", "16731")];
    DocTokens(sep);
    DocQuery();
    assert Convert.ToUrl(r, sep) == Convert.Prefix + Convert.Query(ts);
  }

  lemma DocRun()
    ensures Run(Request.Default(), [CallCategory(R18), CallNum(1), CallUid([16731]), CallSize([Original])])
         == Ok(Request(Some(R18), Some(1), Some([16731]), Some([Original])))
  {
    var calls := [CallCategory(R18), CallNum(1), CallUid([16731]), CallSize([Original])];
    assert calls[1..] == [CallNum(1), CallUid([16731]), CallSize([Original])];
    assert calls[1..][1..] == [CallUid([16731]), CallSize([Original])];
    assert calls[1..][1..][1..] == [CallSize([Original])];
    assert calls[1..][1..][1..][1..] == [];
  }

  lemma DocTokens(sep: char)
    ensures Convert.Tokens(Request(Some(R18), Some(1), Some([16731]), Some([Original])), sep)
         == [Convert.Token("r18", "1"), Convert.Token("uid", "16731")]
  {
    var r := Request(Some(R18), Some(1), Some([16731]), Some([Original]));
    assert Decimal.FromNat(16731) == "16731" by {
      assert Decimal.FromNat(1) == "1";
      assert Decimal.FromNat(16) == "16";
      assert Decimal.FromNat(167) == "167";
      assert Decimal.FromNat(1673) == "1673";
    }
    assert Convert.RenderUids([16731], sep) == "16731";
    assert Convert.Piece(r, Convert.Num, sep) == [];
    assert Convert.Piece(r, Convert.R18, sep) == [Convert.Token("r18", "1")];
    assert Convert.Piece(r, Convert.Size, sep) == [];
    assert Convert.Piece(r, Convert.Uid, sep) == [Convert.Token("uid", "16731")];
    Convert.TokensPieces(r, sep);
  }

  lemma DocQuery()
    ensures Convert.Query([Convert.Token("r18", "1"), Convert.Token("uid", "16731")]) == "&r18=1&uid=16731"
  {
    var a, b := Convert.Token("r18", "1"), Convert.Token("uid", "16731");
    assert Convert.TokenText(a) == "r18=1";
    assert Convert.TokenText(b) == "uid=16731";
    Convert.QueryCons(b, []);
    assert [b] + [] == [b];
    Convert.QueryCons(a, [b]);
    assert [a] + [b] == [a, b];
  }

  /** `test_zero_as_num`: zero is accepted and sent; `NonR18` is not. */
  lemma ZeroAsNum(sep: char)
    ensures Request.Default().SetNum(0).Ok?
    ensures Convert.ToUrl(Request.Default().SetNum(0).value.SetCategory(NonR18), sep)
         == "https://api.lolicon.app/setu/v2?&num=0"
  {
    var r := Request.Default().SetNum(0).value.SetCategory(NonR18);
    Convert.TokensPieces(r, sep);
    assert Convert.Tokens(r, sep) == [Convert.Token("num", "0")];
    Convert.QueryCons(Convert.Token("num", "0"), []);
    assert [Convert.Token("num", "0")] == [Convert.Token("num", "0")] + [];
  }

  /** The `out_of_range` helper of the unit tests: `size(&[])?`,
      `uid(&[])?`, `category(R18)`, `num(n)?`, then `Ok(())`; the value
      passed to `num` is a parameter (the test passes 200). */
  function OutOfRangeChain(n: int): (res: Result<(), Error>)
    ensures res.Ok? <==> 0 <= n <= 100
    ensures res.Err? ==> res.error == OutOfRange(RangeInclusive(0, 100), n, "")
  {
    var calls := [CallSize([]), CallUid([]), CallCategory(R18), CallNum(n)];
    RunOkIff(Request.Default(), calls);
    assert calls[3] == CallNum(n) && !Fails(calls[0]) && !Fails(calls[1]) && !Fails(calls[2]);
    match Run(Request.Default(), calls)
    case Ok(_) => Ok(())
    case Err(e) => Err(e)
  }

  /** `test_num_out_of_range`: the chain with 200 surfaces the `num` error. */
  lemma NumOutOfRange()
    ensures OutOfRangeChain(200) == Err(OutOfRange(RangeInclusive(0, 100), 200, ""))
  {
  }
}
