/** Reading a URL produced by `Convert.ToUrl` back into a request. It is
    the inverse the serializer is checked against: decoding the URL of a
    valid request yields that request with its default-equivalent values
    collapsed, so the URL carries exactly the request's non-default
    content. */
module Decode {
  import opened Results
  import Datatype
  import Decimal
  import Text
  import opened Convert

  function ParseToken(seg: string): (r: Option<Token>)
    ensures r.Some? ==> '=' !in r.value.key && seg == TokenText(r.value)
  {
    match Text.SplitFirst(seg, '=')
    case None => None
    case Some((k, v)) => Some(Token(k, v))
  }

  function ParseTokens(segs: seq<string>): (r: Option<seq<Token>>)
    ensures r.Some? ==> |r.value| == |segs|
    decreases |segs|
  {
    if |segs| == 0 then Some([])
    else
      var t :- ParseToken(segs[0]);
      var rest :- ParseTokens(segs[1..]);
      Some([t] + rest)
  }

  /** The tokens of a URL: the fixed prefix, then `&`-separated
      `key=value` segments, the first segment being empty. */
  function ParseQuery(url: string): Option<seq<Token>> {
    if |url| < |Prefix| || url[..|Prefix|] != Prefix then None
    else
      var segs := Text.Split(url[|Prefix|..], '&');
      if segs[0] != "" then None else ParseTokens(segs[1..])
  }

  function ParseUids(parts: seq<string>): (r: Option<seq<nat>>)
    ensures r.Some? ==> |r.value| == |parts|
    decreases |parts|
  {
    if |parts| == 0 then Some([])
    else
      var n :- Decimal.Parse(parts[0]);
      var rest :- ParseUids(parts[1..]);
      Some([n] + rest)
  }

  function ParseSizes(parts: seq<string>): (r: Option<seq<Datatype.ImageSize>>)
    ensures r.Some? ==> |r.value| == |parts|
    decreases |parts|
  {
    if |parts| == 0 then Some([])
    else if parts[0] != SizeName(Datatype.Original) then None
    else
      var rest :- ParseSizes(parts[1..]);
      Some([Datatype.Original] + rest)
  }

  /** Applies one token through the builder's own setters, so a decoded
      `num` is validated exactly as the `num` setter validates it. */
  function ApplyToken(acc: Datatype.Request, t: Token, sep: char): Option<Datatype.Request> {
    if t.key == Key(Num) then
      var n :- Decimal.Parse(t.value);
      acc.SetNum(n).ToOption()
    else if t.key == Key(R18) then
      if t.value == "1" then Some(acc.SetCategory(Datatype.R18)) else None
    else if t.key == Key(Size) then
      var sizes :- ParseSizes(Text.Split(t.value, sep));
      acc.SetSize(sizes).ToOption()
    else if t.key == Key(Uid) then
      var ids :- ParseUids(Text.Split(t.value, sep));
      acc.SetUid(ids).ToOption()
    else None
  }

  function ApplyTokens(acc: Datatype.Request, ts: seq<Token>, sep: char): Option<Datatype.Request>
    decreases |ts|
  {
    if |ts| == 0 then Some(acc)
    else
      var next :- ApplyToken(acc, ts[0], sep);
      ApplyTokens(next, ts[1..], sep)
  }

  function FromUrl(url: string, sep: char): Option<Datatype.Request> {
    var ts :- ParseQuery(url);
    ApplyTokens(Datatype.Request.Default(), ts, sep)
  }

  // ---------------------------------------------------------------------
  // Parsing the query undoes `Query`.

  /** A token that can be cut out of a query again. */
  predicate Separable(t: Token) {
    '&' !in t.key && '&' !in t.value && '=' !in t.key
  }

  lemma {:induction false} ParseTokensTexts(ts: seq<Token>)
    requires forall i :: 0 <= i < |ts| ==> Separable(ts[i])
    ensures ParseTokens(seq(|ts|, i requires 0 <= i < |ts| => TokenText(ts[i]))) == Some(ts)
    decreases |ts|
  {
    var texts := seq(|ts|, i requires 0 <= i < |ts| => TokenText(ts[i]));
    if |ts| > 0 {
      Text.SplitFirstJoin(ts[0].key, '=', ts[0].value);
      assert TokenText(ts[0]) == ts[0].key + ['='] + ts[0].value;
      assert texts[1..] == seq(|ts[1..]|, i requires 0 <= i < |ts[1..]| => TokenText(ts[1..][i]));
      ParseTokensTexts(ts[1..]);
      assert [ts[0]] + ts[1..] == ts;
    }
  }

  lemma QueryRoundTrip(ts: seq<Token>)
    requires forall i :: 0 <= i < |ts| ==> Separable(ts[i])
    ensures ParseQuery(Prefix + Query(ts)) == Some(ts)
  {
    var texts := seq(|ts|, i requires 0 <= i < |ts| => TokenText(ts[i]));
    var url := Prefix + Query(ts);
    assert url[..|Prefix|] == Prefix;
    assert url[|Prefix|..] == Query(ts);
    forall i | 0 <= i < |[""] + texts|
      ensures '&' !in ([""] + texts)[i]
    {
      if i > 0 {
        var t := ts[i - 1];
        assert ([""] + texts)[i] == t.key + "=" + t.value;
      }
    }
    Text.SplitJoin([""] + texts, '&');
    assert ([""] + texts)[1..] == texts;
    ParseTokensTexts(ts);
  }

  // ---------------------------------------------------------------------
  // The serializer's tokens can be cut out again.

  lemma TokensSeparable(r: Datatype.Request, sep: char)
    requires IsListSeparator(sep)
    ensures forall i :: 0 <= i < |Tokens(r, sep)| ==> Separable(Tokens(r, sep)[i])
  {
    TokensPieces(r, sep);
    PieceSeparable(r, Num, sep);
    PieceSeparable(r, R18, sep);
    PieceSeparable(r, Size, sep);
    PieceSeparable(r, Uid, sep);
  }

  lemma PieceSeparable(r: Datatype.Request, f: Field, sep: char)
    requires IsListSeparator(sep)
    ensures forall i :: 0 <= i < |Piece(r, f, sep)| ==> Separable(Piece(r, f, sep)[i])
  {
    assert sep != '&' by { assert "0123456789abcdefghijklmnopqrstuvwxyz&="[36] == '&'; }
    match Render(r, f, sep)
    case None =>
    case Some(v) =>
      assert '&' !in Key(f) && '=' !in Key(f);
      match f
      case Num =>
      case R18 =>
      case Size =>
        var sizes := r.size.value;
        Text.JoinAvoids(seq(|sizes|, i requires 0 <= i < |sizes| => SizeName(sizes[i])), sep, '&');
      case Uid =>
        var ids := r.uid.value;
        var parts := seq(|ids|, i requires 0 <= i < |ids| => Decimal.FromNat(ids[i]));
        forall i | 0 <= i < |parts|
          ensures '&' !in parts[i]
        {
          assert Decimal.AllDigits(parts[i]);
        }
        Text.JoinAvoids(parts, sep, '&');
  }

  // ---------------------------------------------------------------------
  // Applying the serializer's tokens rebuilds the canonical request.

  lemma {:induction false} ParseUidsTexts(ids: seq<nat>)
    ensures ParseUids(seq(|ids|, i requires 0 <= i < |ids| => Decimal.FromNat(ids[i]))) == Some(ids)
    decreases |ids|
  {
    if |ids| > 0 {
      var parts := seq(|ids|, i requires 0 <= i < |ids| => Decimal.FromNat(ids[i]));
      Decimal.ParseFromNat(ids[0]);
      assert parts[1..] == seq(|ids[1..]|, i requires 0 <= i < |ids[1..]| => Decimal.FromNat(ids[1..][i]));
      ParseUidsTexts(ids[1..]);
      assert [ids[0]] + ids[1..] == ids;
    }
  }

  lemma {:induction false} ParseSizesTexts(sizes: seq<Datatype.ImageSize>)
    ensures ParseSizes(seq(|sizes|, i requires 0 <= i < |sizes| => SizeName(sizes[i]))) == Some(sizes)
    decreases |sizes|
  {
    if |sizes| > 0 {
      var parts := seq(|sizes|, i requires 0 <= i < |sizes| => SizeName(sizes[i]));
      assert sizes[0] == Datatype.Original && parts[0] == SizeName(Datatype.Original);
      assert parts[1..] == seq(|sizes[1..]|, i requires 0 <= i < |sizes[1..]| => SizeName(sizes[1..][i]));
      ParseSizesTexts(sizes[1..]);
      assert [sizes[0]] + sizes[1..] == sizes;
    }
  }

  lemma {:induction false} ApplyAppend(acc: Datatype.Request, a: seq<Token>, b: seq<Token>, sep: char)
    ensures ApplyTokens(acc, a + b, sep)
         == (match ApplyTokens(acc, a, sep)
             case None => None
             case Some(x) => ApplyTokens(x, b, sep))
    decreases |a|
  {
    if |a| > 0 {
      assert (a + b)[0] == a[0] && (a + b)[1..] == a[1..] + b;
      match ApplyToken(acc, a[0], sep)
      case None =>
      case Some(next) => ApplyAppend(next, a[1..], b, sep);
    } else {
      assert a + b == b;
    }
  }

  /** Copies field `f` of `src` into `acc`. */
  function Update(acc: Datatype.Request, f: Field, src: Datatype.Request): Datatype.Request {
    match f
    case Num => acc.(num := src.num)
    case R18 => acc.(category := src.category)
    case Size => acc.(size := src.size)
    case Uid => acc.(uid := src.uid)
  }

  lemma ApplyPiece(acc: Datatype.Request, r: Datatype.Request, f: Field, sep: char)
    requires r.Valid()
    requires IsListSeparator(sep)
    requires !Present(acc, f)
    ensures ApplyTokens(acc, Piece(r, f, sep), sep) == Some(Update(acc, f, r.Canonical()))
  {
    var c := r.Canonical();
    KeyInjective(f, Num);
    KeyInjective(f, R18);
    KeyInjective(f, Size);
    match f
    case Num =>
      if c.num.Some? {
        Decimal.ParseFromNat(c.num.value);
      }
    case R18 =>
    case Size =>
      if c.size.Some? {
        var sizes := c.size.value;
        var parts := seq(|sizes|, i requires 0 <= i < |sizes| => SizeName(sizes[i]));
        assert sep !in "original";
        Text.SplitJoin(parts, sep);
        ParseSizesTexts(sizes);
      }
    case Uid =>
      if c.uid.Some? {
        var ids := c.uid.value;
        var parts := seq(|ids|, i requires 0 <= i < |ids| => Decimal.FromNat(ids[i]));
        assert !Decimal.IsDigit(sep);
        forall i | 0 <= i < |parts|
          ensures sep !in parts[i]
        {
          assert Decimal.AllDigits(parts[i]);
        }
        Text.SplitJoin(parts, sep);
        ParseUidsTexts(ids);
      }
  }

  lemma ApplyTokensCanonical(r: Datatype.Request, sep: char)
    requires r.Valid()
    requires IsListSeparator(sep)
    ensures ApplyTokens(Datatype.Request.Default(), Tokens(r, sep), sep) == Some(r.Canonical())
  {
    var c := r.Canonical();
    var a, b, d, e := Piece(r, Num, sep), Piece(r, R18, sep), Piece(r, Size, sep), Piece(r, Uid, sep);
    TokensPieces(r, sep);
    assert Tokens(r, sep) == a + (b + (d + e));
    var s0 := Datatype.Request.Default();
    var s1 := Update(s0, Num, c);
    var s2 := Update(s1, R18, c);
    var s3 := Update(s2, Size, c);
    var s4 := Update(s3, Uid, c);
    assert s4 == c;
    ApplyPiece(s3, r, Uid, sep);
    ApplyPiece(s2, r, Size, sep);
    ApplyAppend(s2, d, e, sep);
    assert ApplyTokens(s2, d + e, sep) == Some(c);
    ApplyPiece(s1, r, R18, sep);
    ApplyAppend(s1, b, d + e, sep);
    assert ApplyTokens(s1, b + (d + e), sep) == Some(c);
    ApplyPiece(s0, r, Num, sep);
    ApplyAppend(s0, a, b + (d + e), sep);
  }

  /** Decoding the URL of a valid request gives back the request with its
      default-equivalent values collapsed. */
  lemma RoundTrip(r: Datatype.Request, sep: char)
    requires r.Valid()
    requires IsListSeparator(sep)
    ensures FromUrl(ToUrl(r, sep), sep) == Some(r.Canonical())
  {
    TokensSeparable(r, sep);
    QueryRoundTrip(Tokens(r, sep));
    ApplyTokensCanonical(r, sep);
  }

  /** Two valid requests produce the same URL exactly when they agree on
      every non-default value. */
  lemma UrlDeterminesCanonical(r1: Datatype.Request, r2: Datatype.Request, sep: char)
    requires r1.Valid() && r2.Valid()
    requires IsListSeparator(sep)
    ensures ToUrl(r1, sep) == ToUrl(r2, sep) <==> r1.Canonical() == r2.Canonical()
  {
    RoundTrip(r1, sep);
    RoundTrip(r2, sep);
    ToUrlCanonical(r1, sep);
    ToUrlCanonical(r2, sep);
  }
}
