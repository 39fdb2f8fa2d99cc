/** Rendering a request into the endpoint URL: the fixed prefix, then one
    `&key=value` token per field that differs from the endpoint default,
    keys in ascending name order. */
module Convert {
  import opened Results
  import Datatype
  import Decimal
  import Text

  const Prefix := "https://api.lolicon.app/setu/v2?"

  /** The serialisable fields. */
  datatype Field = Num | R18 | Size | Uid

  /** Serialisation order: the fields sorted by their key names. */
  const FieldOrder: seq<Field> := [Num, R18, Size, Uid]

  function Key(f: Field): string {
    match f
    case Num => "num"
    case R18 => "r18"
    case Size => "size"
    case Uid => "uid"
  }

  function SizeName(s: Datatype.ImageSize): string {
    match s
    case Original => "original"
  }

  lemma KeyInjective(f: Field, g: Field)
    ensures Key(f) == Key(g) <==> f == g
  {
    if f != g {
      assert Key(f)[0] != Key(g)[0];
    }
  }

  datatype Token = Token(key: string, value: string)

  /** Characters that may separate the elements of a list value: anything
      that cannot occur in an element, a key or the query syntax. */
  predicate IsListSeparator(sep: char) {
    sep !in "0123456789abcdefghijklmnopqrstuvwxyz&="
  }

  function RenderUids(ids: seq<nat>, sep: char): string
    requires |ids| > 0
  {
    Text.Join(seq(|ids|, i requires 0 <= i < |ids| => Decimal.FromNat(ids[i])), sep)
  }

  function RenderSizes(sizes: seq<Datatype.ImageSize>, sep: char): string
    requires |sizes| > 0
  {
    Text.Join(seq(|sizes|, i requires 0 <= i < |sizes| => SizeName(sizes[i])), sep)
  }

  /** The value sent for field `f`, or `None` when the field is unset or
      holds the endpoint's default. */
  function Render(r: Datatype.Request, f: Field, sep: char): Option<string> {
    match f
    case Num =>
      if r.num.Some? && r.num.value != Datatype.DefaultNum then Some(Decimal.FromNat(r.num.value)) else None
    case R18 =>
      if r.category == Some(Datatype.R18) then Some("1") else None
    case Size =>
      if r.size.Some? && r.size.value != [] && r.size.value != Datatype.DefaultSize
      then Some(RenderSizes(r.size.value, sep)) else None
    case Uid =>
      if r.uid.Some? && r.uid.value != [] then Some(RenderUids(r.uid.value, sep)) else None
  }

  /** The tokens of the fields in `fs`, in that order, skipping the ones
      that render to nothing. */
  function Collect(r: Datatype.Request, fs: seq<Field>, sep: char): (ts: seq<Token>)
    ensures |ts| <= |fs|
    ensures forall i :: 0 <= i < |ts| ==> exists j :: 0 <= j < |fs| && ts[i].key == Key(fs[j])
    decreases |fs|
  {
    if |fs| == 0 then []
    else
      var rest := Collect(r, fs[1..], sep);
      match Render(r, fs[0], sep)
      case None => rest
      case Some(v) => [Token(Key(fs[0]), v)] + rest
  }

  function Tokens(r: Datatype.Request, sep: char): seq<Token> {
    Collect(r, FieldOrder, sep)
  }

  function TokenText(t: Token): string {
    t.key + "=" + t.value
  }

  /** `&k1=v1&k2=v2...`: every token, the first one included, is preceded
      by `&`; no tokens give the empty string. */
  function Query(ts: seq<Token>): string {
    Text.Join([""] + seq(|ts|, i requires 0 <= i < |ts| => TokenText(ts[i])), '&')
  }

  /** Each token adds `&key=value` in front of the query of the rest. */
  lemma QueryCons(t: Token, ts: seq<Token>)
    ensures Query([t] + ts) == "&" + TokenText(t) + Query(ts)
  {
    var texts := seq(|ts|, i requires 0 <= i < |ts| => TokenText(ts[i]));
    var all := seq(|[t] + ts|, i requires 0 <= i < |[t] + ts| => TokenText(([t] + ts)[i]));
    assert all == [TokenText(t)] + texts;
    var parts := [""] + all;
    assert parts[1..] == all;
    assert all[1..] == texts;
    var x := TokenText(t);
    assert Query([t] + ts) == "" + ['&'] + Text.Join([x] + texts, '&');
    if |ts| > 0 {
      assert ([x] + texts)[1..] == texts;
      assert Text.Join([x] + texts, '&') == x + ['&'] + Text.Join(texts, '&');
      assert ([""] + texts)[1..] == texts;
      assert Query(ts) == "" + ['&'] + Text.Join(texts, '&');
    } else {
      assert texts == [];
      assert Query(ts) == "";
    }
  }

  /** `String::from(Request)` and `Request::to_string`: the fixed prefix,
      followed by the query text of the emitted tokens. */
  function ToUrl(r: Datatype.Request, sep: char): (u: string)
    ensures |u| >= |Prefix| && u[..|Prefix|] == Prefix
    ensures u[|Prefix|..] == Query(Tokens(r, sep))
  {
    Prefix + Query(Tokens(r, sep))
  }

  /** Whether field `f` holds a value in `r`. */
  predicate Present(r: Datatype.Request, f: Field) {
    match f
    case Num => r.num.Some?
    case R18 => r.category.Some?
    case Size => r.size.Some?
    case Uid => r.uid.Some?
  }

  predicate KeysAscending(ts: seq<Token>) {
    forall i, j :: 0 <= i < j < |ts| ==> Text.LexLess(ts[i].key, ts[j].key)
  }

  predicate FieldsAscending(fs: seq<Field>) {
    forall i, j :: 0 <= i < j < |fs| ==> Text.LexLess(Key(fs[i]), Key(fs[j]))
  }

  lemma {:induction false} CollectAscending(r: Datatype.Request, fs: seq<Field>, sep: char)
    requires FieldsAscending(fs)
    ensures KeysAscending(Collect(r, fs, sep))
    decreases |fs|
  {
    if |fs| > 0 {
      var rest := Collect(r, fs[1..], sep);
      assert FieldsAscending(fs[1..]) by {
        forall i, j | 0 <= i < j < |fs[1..]|
          ensures Text.LexLess(Key(fs[1..][i]), Key(fs[1..][j]))
        {
          assert fs[1..][i] == fs[i + 1] && fs[1..][j] == fs[j + 1];
        }
      }
      CollectAscending(r, fs[1..], sep);
      match Render(r, fs[0], sep)
      case None =>
      case Some(v) =>
        forall j | 0 <= j < |rest|
          ensures Text.LexLess(Key(fs[0]), rest[j].key)
        {
          var k :| 0 <= k < |fs[1..]| && rest[j].key == Key(fs[1..][k]);
          assert fs[1..][k] == fs[k + 1];
        }
        ConsAscending(Token(Key(fs[0]), v), rest);
    }
  }

  lemma ConsAscending(t: Token, rest: seq<Token>)
    requires KeysAscending(rest)
    requires forall j :: 0 <= j < |rest| ==> Text.LexLess(t.key, rest[j].key)
    ensures KeysAscending([t] + rest)
  {
    var ts := [t] + rest;
    forall i, j | 0 <= i < j < |ts|
      ensures Text.LexLess(ts[i].key, ts[j].key)
    {
      assert ts[j] == rest[j - 1];
      if i > 0 {
        assert ts[i] == rest[i - 1];
      }
    }
  }

  /** Emitted keys are strictly ascending by name, whatever the request
      holds; in particular no key is emitted twice. */
  lemma TokensAscending(r: Datatype.Request, sep: char)
    ensures KeysAscending(Tokens(r, sep))
    ensures forall i, j :: 0 <= i < j < |Tokens(r, sep)| ==> Tokens(r, sep)[i].key != Tokens(r, sep)[j].key
  {
    assert FieldsAscending(FieldOrder) by {
      assert Text.LexLess("num", "r18");
      assert Text.LexLess("r18", "size");
      assert Text.LexLess("size", "uid");
      Text.LexLessTransitive("num", "r18", "size");
      Text.LexLessTransitive("num", "size", "uid");
      Text.LexLessTransitive("r18", "size", "uid");
    }
    CollectAscending(r, FieldOrder, sep);
    var ts := Tokens(r, sep);
    forall i, j | 0 <= i < j < |ts|
      ensures ts[i].key != ts[j].key
    {
      Text.LexLessIrreflexive(ts[i].key);
    }
  }

  /** The single-token list for field `f`, or nothing. */
  function Piece(r: Datatype.Request, f: Field, sep: char): seq<Token> {
    match Render(r, f, sep)
    case None => []
    case Some(v) => [Token(Key(f), v)]
  }

  lemma TokensPieces(r: Datatype.Request, sep: char)
    ensures Tokens(r, sep)
         == Piece(r, Num, sep) + Piece(r, R18, sep) + Piece(r, Size, sep) + Piece(r, Uid, sep)
  {
    var fs := FieldOrder;
    assert fs[1..] == [R18, Size, Uid];
    assert fs[1..][1..] == [Size, Uid];
    assert fs[1..][1..][1..] == [Uid];
    assert fs[1..][1..][1..][1..] == [];
  }

  /** The keys of `ts`, in order. */
  function KeysOf(ts: seq<Token>): (ks: seq<string>)
    ensures |ks| == |ts|
    ensures forall i :: 0 <= i < |ts| ==> ks[i] == ts[i].key
  {
    seq(|ts|, i requires 0 <= i < |ts| => ts[i].key)
  }

  lemma KeysOfAppend(a: seq<Token>, b: seq<Token>)
    ensures KeysOf(a + b) == KeysOf(a) + KeysOf(b)
  {
  }

  lemma KeysOfTokens(r: Datatype.Request, sep: char)
    ensures KeysOf(Tokens(r, sep))
         == KeysOf(Piece(r, Num, sep)) + KeysOf(Piece(r, R18, sep))
          + KeysOf(Piece(r, Size, sep)) + KeysOf(Piece(r, Uid, sep))
  {
    TokensPieces(r, sep);
    var a, b, c, d := Piece(r, Num, sep), Piece(r, R18, sep), Piece(r, Size, sep), Piece(r, Uid, sep);
    KeysOfAppend(a, b);
    KeysOfAppend(a + b, c);
    KeysOfAppend(a + b + c, d);
  }

  /** Field `f` contributes a token exactly when the request, with its
      default-equivalent values collapsed, still holds a value for it. */
  lemma KeyEmittedIff(r: Datatype.Request, sep: char, f: Field)
    ensures (exists i :: 0 <= i < |Tokens(r, sep)| && Tokens(r, sep)[i].key == Key(f))
        <==> Present(r.Canonical(), f)
  {
    var ts := Tokens(r, sep);
    KeysOfTokens(r, sep);
    assert (exists i :: 0 <= i < |ts| && ts[i].key == Key(f)) <==> Key(f) in KeysOf(ts) by {
      if Key(f) in KeysOf(ts) {
        var i :| 0 <= i < |ts| && KeysOf(ts)[i] == Key(f);
        assert ts[i].key == Key(f);
      }
    }
    var a, b, c, d := KeysOf(Piece(r, Num, sep)), KeysOf(Piece(r, R18, sep)),
                      KeysOf(Piece(r, Size, sep)), KeysOf(Piece(r, Uid, sep));
    assert Key(f) in a + b + c + d <==> Key(f) in a || Key(f) in b || Key(f) in c || Key(f) in d;
    PieceKey(r, sep, f, Num);
    PieceKey(r, sep, f, R18);
    PieceKey(r, sep, f, Size);
    PieceKey(r, sep, f, Uid);
  }

  lemma PieceKey(r: Datatype.Request, sep: char, f: Field, g: Field)
    ensures Key(f) in KeysOf(Piece(r, g, sep)) <==> g == f && Present(r.Canonical(), f)
  {
    assert Render(r, g, sep).Some? <==> Present(r.Canonical(), g);
    if Render(r, g, sep).Some? {
      assert KeysOf(Piece(r, g, sep)) == [Key(g)];
      KeyInjective(f, g);
    } else {
      assert KeysOf(Piece(r, g, sep)) == [];
    }
  }

  /** Collapsing default-equivalent values does not change the URL. */
  lemma ToUrlCanonical(r: Datatype.Request, sep: char)
    ensures ToUrl(r.Canonical(), sep) == ToUrl(r, sep)
  {
    PieceCanonical(r, Num, sep);
    PieceCanonical(r, R18, sep);
    PieceCanonical(r, Size, sep);
    PieceCanonical(r, Uid, sep);
    TokensPieces(r, sep);
    TokensPieces(r.Canonical(), sep);
  }

  lemma PieceCanonical(r: Datatype.Request, f: Field, sep: char)
    ensures Piece(r.Canonical(), f, sep) == Piece(r, f, sep)
  {
    assert Render(r.Canonical(), f, sep) == Render(r, f, sep);
  }

  /** Only the fixed prefix remains exactly when nothing differs from the
      endpoint defaults. */
  lemma BareUrlIff(r: Datatype.Request, sep: char)
    ensures ToUrl(r, sep) == Prefix <==> r.Canonical() == Datatype.Request.Default()
  {
    TokensPieces(r, sep);
    var ts := Tokens(r, sep);
    if r.Canonical() == Datatype.Request.Default() {
      assert ts == [];
      assert Query(ts) == "";
    } else {
      assert |ts| > 0;
      assert |Query(ts)| > 0;
    }
  }
}
