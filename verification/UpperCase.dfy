/** The upper-cased form of a text, rune by rune, and where it can be cut like the text itself. */
module UpperCase {
  import opened Sequences
  import opened Utf8

  /** Upper case of a code point, by `cases` outside ASCII. */
  function UpperCode(cases: int -> int, code: int): int {
    if 0 <= code < 0x80 then if 'a' as int <= code <= 'z' as int then code - 32 else code
    else if code == REPLACEMENT then code
    else cases(code)
  }

  /** A rune of a text, and the bytes it becomes. */
  datatype Piece = Piece(bytes: string, upper: string)

  /** What is written for a rune holds an ASCII byte only if it is that byte. */
  predicate Proper(p: Piece) {
    p.upper != "" && (|p.upper| == 1 || forall i :: 0 <= i < |p.upper| ==> p.upper[i] as int >= 0x80)
  }

  function FirstPiece(cases: int -> int, s: string): (p: Piece)
    requires s != ""
    ensures p.bytes != "" && p.bytes <= s && Proper(p)
  {
    var r := FirstRune(s);
    Piece(s[..r.width], Encode(UpperCode(cases, r.code)))
  }

  function Pieces(cases: int -> int, s: string): (ps: seq<Piece>)
    ensures forall j :: 0 <= j < |ps| ==> Proper(ps[j])
  {
    if s == "" then []
    else
      var p := FirstPiece(cases, s);
      [p] + Pieces(cases, s[|p.bytes|..])
  }

  function BytesOf(ps: seq<Piece>): string {
    if ps == [] then "" else ps[0].bytes + BytesOf(ps[1..])
  }

  function UpperOf(ps: seq<Piece>): string {
    if ps == [] then "" else ps[0].upper + UpperOf(ps[1..])
  }

  function Upper(cases: int -> int, s: string): string {
    UpperOf(Pieces(cases, s))
  }

  /** How many runes the first `i` upper-cased bytes come from. */
  function Before(ps: seq<Piece>, i: nat): (j: nat)
    ensures j <= |ps|
  {
    if ps == [] || i < |ps[0].upper| then 0 else 1 + Before(ps[1..], i - |ps[0].upper|)
  }

  /** The beginning of the text from which the first `i` upper-cased bytes come. */
  function Head(cases: int -> int, s: string, i: nat): string {
    var ps := Pieces(cases, s);
    BytesOf(ps[..Before(ps, i)])
  }

  lemma BeginningAndRest(s: string, a: string)
    requires a <= s
    ensures s == a + s[|a|..]
  {
  }

  lemma PiecesCons(cases: int -> int, s: string, p: Piece, tail: string)
    requires s != "" && p == FirstPiece(cases, s) && tail == s[|p.bytes|..]
    ensures Pieces(cases, s) == [p] + Pieces(cases, tail) && s == p.bytes + tail
  {
    BeginningAndRest(s, p.bytes);
  }

  lemma OfCons(p: Piece, rest: seq<Piece>)
    ensures BytesOf([p] + rest) == p.bytes + BytesOf(rest) && UpperOf([p] + rest) == p.upper + UpperOf(rest)
  {
    assert ([p] + rest)[1..] == rest;
  }

  lemma {:induction false} PiecesConcat(a: seq<Piece>, b: seq<Piece>)
    ensures BytesOf(a + b) == BytesOf(a) + BytesOf(b) && UpperOf(a + b) == UpperOf(a) + UpperOf(b)
  {
    if a == [] {
      assert a + b == b;
    } else {
      var p, tail := a[0], a[1..];
      PiecesConcat(tail, b);
      assert a + b == [p] + (tail + b) && a == [p] + tail;
      OfCons(p, tail + b);
      OfCons(p, tail);
      Associative(p.bytes, BytesOf(tail), BytesOf(b));
      Associative(p.upper, UpperOf(tail), UpperOf(b));
    }
  }

  lemma FirstPieceOfPrefix(cases: int -> int, s: string, k: nat)
    requires s != "" && |FirstPiece(cases, s).bytes| <= k <= |s|
    ensures FirstPiece(cases, s[..k]) == FirstPiece(cases, s)
  {
    FirstRuneOfPrefix(s, k);
  }

  lemma PiecesOfBeginning(cases: int -> int, s: string, p: Piece, b: string)
    requires s != "" && p == FirstPiece(cases, s) && p.bytes + b <= s
    ensures Pieces(cases, p.bytes + b) == [p] + Pieces(cases, b)
  {
    var part := p.bytes + b;
    assert part == s[..|part|];
    FirstPieceOfPrefix(cases, s, |part|);
    assert part[|p.bytes|..] == b;
    PiecesCons(cases, part, p, b);
  }

  /** A text cut between two of its runes has the same runes. */
  lemma {:induction false} PiecesOfParts(cases: int -> int, s: string, front: seq<Piece>, back: seq<Piece>) returns (rest: string)
    requires Pieces(cases, s) == front + back
    ensures s == BytesOf(front) + rest && Pieces(cases, BytesOf(front)) == front && Pieces(cases, rest) == back
    decreases |front|
  {
    if front == [] {
      rest := s;
      assert front + back == back && "" + s == s;
    } else {
      var p, tail := FirstOfPieces(cases, s);
      var more := front[1..];
      SameTail(p, Pieces(cases, tail), front, back);
      rest := PiecesOfParts(cases, tail, more, back);
      Longer(cases, s, p, more, front, rest);
    }
  }

  lemma Longer(cases: int -> int, s: string, p: Piece, more: seq<Piece>, front: seq<Piece>, rest: string)
    requires s != "" && p == FirstPiece(cases, s) && s == p.bytes + (BytesOf(more) + rest)
    requires Pieces(cases, BytesOf(more)) == more && front == [p] + more
    ensures s == BytesOf(front) + rest && Pieces(cases, BytesOf(front)) == front
  {
    OfCons(p, more);
    Associative(p.bytes, BytesOf(more), rest);
    PiecesOfBeginning(cases, s, p, BytesOf(more));
  }

  lemma FirstOfPieces(cases: int -> int, s: string) returns (p: Piece, tail: string)
    requires Pieces(cases, s) != []
    ensures s != "" && p == FirstPiece(cases, s) && s == p.bytes + tail && |tail| < |s|
    ensures Pieces(cases, s) == [p] + Pieces(cases, tail)
  {
    p := FirstPiece(cases, s);
    tail := s[|p.bytes|..];
    PiecesCons(cases, s, p, tail);
  }

  lemma SameTail(p: Piece, tail: seq<Piece>, front: seq<Piece>, back: seq<Piece>)
    requires front != [] && [p] + tail == front + back
    ensures front == [p] + front[1..] && tail == front[1..] + back
  {
    assert ([p] + tail)[0] == front[0] && ([p] + tail)[1..] == tail && (front + back)[1..] == front[1..] + back;
  }

  /** An ASCII byte is a rune of its own. */
  lemma {:induction false} AsciiBetween(ps: seq<Piece>, i: nat)
    requires (forall j :: 0 <= j < |ps| ==> Proper(ps[j])) && i < |UpperOf(ps)| && UpperOf(ps)[i] as int < 0x80
    ensures |UpperOf(ps[..Before(ps, i)])| == i && |UpperOf(ps[..Before(ps, i + 1)])| == i + 1
  {
    var n, rest := |ps[0].upper|, ps[1..];
    if i < n {
      assert UpperOf(ps)[i] == ps[0].upper[i];
      assert n == 1 && Before(ps, 1) == 1 + Before(rest, 0);
      assert Before(rest, 0) == 0;
      assert ps[..1] == [ps[0]];
    } else {
      AsciiBetween(rest, i - n);
      assert ps[..Before(ps, i)][1..] == rest[..Before(rest, i - n)];
      assert ps[..Before(ps, i + 1)][1..] == rest[..Before(rest, i + 1 - n)];
    }
  }

  /** The text and its upper-cased form can be cut there alike. */
  predicate CutAlike(cases: int -> int, s: string, i: nat) {
    var head := Head(cases, s, i);
    && head <= s && i <= |Upper(cases, s)|
    && Upper(cases, head) == Upper(cases, s)[..i] && Upper(cases, s[|head|..]) == Upper(cases, s)[i..]
  }

  lemma CutBetween(cases: int -> int, s: string, ps: seq<Piece>, i: nat)
    requires ps == Pieces(cases, s) && |UpperOf(ps[..Before(ps, i)])| == i
    ensures CutAlike(cases, s, i)
  {
    var j := Before(ps, i);
    var front, back := ps[..j], ps[j..];
    assert ps == front + back;
    CutAtPieces(cases, s, i, front, back);
  }

  lemma CutAtPieces(cases: int -> int, s: string, i: nat, front: seq<Piece>, back: seq<Piece>)
    requires Pieces(cases, s) == front + back && BytesOf(front) == Head(cases, s, i) && |UpperOf(front)| == i
    ensures CutAlike(cases, s, i)
  {
    var rest := PiecesOfParts(cases, s, front, back);
    BetweenBoth(BytesOf(front), rest);
    PiecesConcat(front, back);
    BetweenBoth(UpperOf(front), UpperOf(back));
  }

  lemma BetweenBoth(a: string, b: string)
    ensures (a + b)[..|a|] == a && (a + b)[|a|..] == b
  {
  }

  /** Both can be cut before an ASCII byte of the upper-cased form, and behind it. */
  lemma CutAtAscii(cases: int -> int, s: string, i: nat)
    requires i < |Upper(cases, s)| && Upper(cases, s)[i] as int < 0x80
    ensures CutAlike(cases, s, i) && CutAlike(cases, s, i + 1)
  {
    var ps := Pieces(cases, s);
    AsciiBetween(ps, i);
    CutBetween(cases, s, ps, i);
    CutBetween(cases, s, ps, i + 1);
  }

  // ----- what some texts become

  lemma UpperNext(cases: int -> int, s: string, p: Piece, tail: string)
    requires s != "" && p == FirstPiece(cases, s) && tail == s[|p.bytes|..]
    ensures Upper(cases, s) == p.upper + Upper(cases, tail)
  {
    PiecesCons(cases, s, p, tail);
    OfCons(p, Pieces(cases, tail));
  }

  function Repeated(s: string, n: nat): (r: string)
    ensures |r| == |s| * n
    ensures forall c :: c in r ==> c in s
  {
    if n == 0 then "" else s + Repeated(s, n - 1)
  }

  /** Whatever follows them, the bytes are read as this rune. */
  ghost predicate Becomes(cases: int -> int, p: Piece) {
    p.bytes != "" && forall tail: string :: FirstPiece(cases, p.bytes + tail) == p
  }

  lemma UpperStep(cases: int -> int, p: Piece, tail: string)
    requires Becomes(cases, p)
    ensures Upper(cases, p.bytes + tail) == p.upper + Upper(cases, tail)
  {
    var s := p.bytes + tail;
    assert FirstPiece(cases, s) == p && s[|p.bytes|..] == tail;
    UpperNext(cases, s, p, tail);
  }

  lemma {:induction false} UpperOfRepeated(cases: int -> int, p: Piece, n: nat, rest: string, r: string, u: string)
    requires Becomes(cases, p) && r == Repeated(p.bytes, n) && u == Repeated(p.upper, n)
    ensures Upper(cases, r + rest) == u + Upper(cases, rest)
  {
    if n == 0 {
      assert "" + rest == rest && "" + Upper(cases, rest) == Upper(cases, rest);
    } else {
      var r', u' := Repeated(p.bytes, n - 1), Repeated(p.upper, n - 1);
      UpperOfRepeated(cases, p, n - 1, rest, r', u');
      UpperStep(cases, p, r' + rest);
      Associative(p.bytes, r', rest);
      Associative(p.upper, u', Upper(cases, rest));
    }
  }

  lemma {:induction false} UpperOfPlain(cases: int -> int, s: string, rest: string)
    requires forall c :: c in s ==> Becomes(cases, Piece([c], [c]))
    ensures Upper(cases, s + rest) == s + Upper(cases, rest)
  {
    if s == "" {
      assert s + rest == rest && s + Upper(cases, rest) == Upper(cases, rest);
    } else {
      var c, more := s[0], s[1..];
      UpperOfPlain(cases, more, rest);
      UpperStep(cases, Piece([c], [c]), more + rest);
      Associative([c], more, rest);
      Associative([c], more, Upper(cases, rest));
      assert [c] + more == s;
    }
  }

  /** The second text has capitals where the first one may have small letters. */
  predicate SameButCase(a: string, b: string) {
    |a| == |b| && forall i :: 0 <= i < |a| ==> a[i] == b[i] || ('a' <= a[i] <= 'z' && b[i] == a[i] - 'a' + 'A')
  }

  lemma SameButCaseFirst(cases: int -> int, a: string, b: string)
    requires a != "" && SameButCase(a, b)
    ensures var p, q := FirstPiece(cases, a), FirstPiece(cases, b);
      |p.bytes| == |q.bytes| && p.upper == q.upper && SameButCase(a[|p.bytes|..], b[|q.bytes|..])
  {
    assert a[0] as int >= 0x80 ==> FirstRune(a) == FirstRune(b);
    var n := FirstRune(a).width;
    var x, y := a[n..], b[n..];
    assert forall i :: 0 <= i < |x| ==> x[i] == a[n + i] && y[i] == b[n + i];
  }

  /** Small ASCII letters, wherever they stand, have the same upper case as their capitals. */
  lemma {:induction false} CaseIgnored(cases: int -> int, a: string, b: string)
    requires SameButCase(a, b)
    ensures Upper(cases, a) == Upper(cases, b)
    decreases |a|
  {
    if a != "" {
      var p, q := FirstPiece(cases, a), FirstPiece(cases, b);
      SameButCaseFirst(cases, a, b);
      CaseIgnored(cases, a[|p.bytes|..], b[|q.bytes|..]);
      UpperNext(cases, a, p, a[|p.bytes|..]);
      UpperNext(cases, b, q, b[|q.bytes|..]);
    }
  }

  /** An ASCII character that is no small letter stays as it is. */
  lemma PlainStays(cases: int -> int, c: char)
    requires c as int < 0x80 && !('a' <= c <= 'z')
    ensures Becomes(cases, Piece([c], [c]))
  {
  }
}
