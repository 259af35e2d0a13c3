/** Query strings for the Consul client: keyword selection, percent-encoding and printing. */
module Query {
  import opened Decimal
  import opened Characters
  import opened Splitting

  const AMP: byte := 38
  const EQUALS: byte := 61
  const PERCENT: byte := 37

  // ---- Percent-encoding ----------------------------------------------------------------------------------

  /** Characters that are escaped, besides controls and bytes from 128 on. */
  const UNSAFE: set<byte> :=
    {33, 35, 36, 38, 39, 40, 41, 42, 43, 44, 47, 58, 59, 61, 63, 64, 91, 93,
     32, 127, 34, 37, 60, 62, 92, 94, 96, 123, 124, 125}

  predicate IsUnsafe(c: byte) {
    c in UNSAFE || c < 0x20 || c >= 0x80
  }

  function ToHex(n: nat): byte
    requires n < 16
  {
    if n < 10 then 48 + n else 55 + n
  }

  function FromHex(c: byte): int {
    if '0' as int <= c <= '9' as int then c - '0' as int
    else if 'A' as int <= c <= 'F' as int then c - 'A' as int + 10
    else if 'a' as int <= c <= 'f' as int then c - 'a' as int + 10
    else -1
  }

  function UrlChar(c: byte): Bytes {
    if IsUnsafe(c) then [PERCENT, ToHex(c / 16), ToHex(c % 16)] else [c]
  }

  function UrlText(s: Bytes): Bytes {
    if s == [] then [] else UrlText(s[..|s| - 1]) + UrlChar(s[|s| - 1])
  }

  /** Section 2.1 of RFC 3986: every well-formed triplet stands for its byte. */
  function PercentDecode(s: Bytes): Bytes {
    if s == [] then []
    else if s[0] == Code('%') && |s| >= 3 && FromHex(s[1]) >= 0 && FromHex(s[2]) >= 0 then
      [FromHex(s[1]) * 16 + FromHex(s[2])] + PercentDecode(s[3..])
    else [s[0]] + PercentDecode(s[1..])
  }

  /** The unreserved characters of section 2.3 of RFC 3986. */
  predicate IsUnreserved(c: byte) {
    || 'A' as int <= c <= 'Z' as int || 'a' as int <= c <= 'z' as int || '0' as int <= c <= '9' as int
    || c == Code('-') || c == Code('.') || c == Code('_') || c == Code('~')
  }

  /** The upper-case digits that section 2.1 of RFC 3986 asks for. */
  function UpperHex(n: nat): nat {
    if n < 10 then '0' as int + n else 'A' as int + (n - 10)
  }

  /** Exactly the unreserved characters stay as they are; every other byte is a percent sign and two digits. */
  lemma UrlCharForm(c: byte)
    ensures UrlChar(c) == if IsUnreserved(c) then [c] else [Code('%'), UpperHex(c / 16), UpperHex(c % 16)]
  {
  }

  method EncodeUrl(s: Bytes) returns (r: Bytes)
    ensures r == UrlText(s)
  {
    r := [];
    for i := 0 to |s|
      invariant r == UrlText(s[..i])
    {
      assert s[..i + 1][..i] == s[..i];
      var c := s[i];
      if IsUnsafe(c) {
        r := r + [PERCENT];
        r := r + [ToHex(c / 16)];
        r := r + [ToHex(c % 16)];
      } else {
        r := r + [c];
      }
    }
    assert s[..|s|] == s;
  }

  lemma UrlCharDecodes(c: byte, rest: Bytes)
    ensures PercentDecode(UrlChar(c) + rest) == [c] + PercentDecode(rest)
  {
    var s := UrlChar(c) + rest;
    if IsUnsafe(c) {
      assert s[3..] == rest;
      assert c / 16 * 16 + c % 16 == c;
    } else {
      assert s[1..] == rest;
    }
  }

  lemma {:induction false} UrlTextDecodesBefore(s: Bytes, rest: Bytes)
    ensures PercentDecode(UrlText(s) + rest) == s + PercentDecode(rest)
  {
    hide PercentDecode, UrlChar;
    if s == [] {
      assert UrlText(s) + rest == rest;
    } else {
      var front, c := s[..|s| - 1], s[|s| - 1];
      assert UrlText(s) + rest == UrlText(front) + (UrlChar(c) + rest);
      UrlTextDecodesBefore(front, UrlChar(c) + rest);
      UrlCharDecodes(c, rest);
    }
  }

  /** Percent-decoding undoes the encoding of every byte string. */
  lemma UrlRoundTrip(s: Bytes)
    ensures PercentDecode(UrlText(s)) == s
  {
    UrlTextDecodesBefore(s, []);
    assert UrlText(s) + [] == UrlText(s);
  }

  /** The encoded text holds no character that has a meaning in a query. */
  lemma {:induction false} UrlTextIsSafe(s: Bytes)
    ensures Code('&') !in UrlText(s) && Code('=') !in UrlText(s)
  {
    if s != [] {
      UrlTextIsSafe(s[..|s| - 1]);
    }
  }

  // ---- The last argument for each keyword --------------------------------------------------------------------

  /** Keywords are types: two of them may print under the same name. */
  datatype Keyword = Keyword(tag: nat, name: Bytes)
  datatype Arg = Arg(keyword: Keyword, value: Bytes)

  /** The fold from the back over positions `n` and later: positions kept, last first, and keywords seen. */
  function FoldBack(args: seq<Arg>, n: nat): (seq<nat>, set<Keyword>)
    requires n <= |args|
    decreases |args| - n
  {
    if n == |args| then ([], {})
    else
      var (indexes, seen) := FoldBack(args, n + 1);
      var k := args[n].keyword;
      (if k in seen then indexes else indexes + [n], seen + {k})
  }

  function Reverse<T>(s: seq<T>): seq<T> {
    if s == [] then [] else [s[|s| - 1]] + Reverse(s[..|s| - 1])
  }

  function UniqueIndexes(args: seq<Arg>): seq<nat> {
    Reverse(FoldBack(args, 0).0)
  }

  /** No later argument has the keyword of number `i`. */
  predicate IsLast(args: seq<Arg>, i: nat) {
    i < |args| && forall j :: i < j < |args| ==> args[j].keyword != args[i].keyword
  }

  /** The positions from `n` on that are the last of their keyword. */
  function LastIndexes(args: seq<Arg>, n: nat): (r: seq<nat>)
    requires n <= |args|
    ensures forall k :: 0 <= k < |r| ==> n <= r[k] < |args|
    decreases |args| - n
  {
    if n == |args| then []
    else (if IsLast(args, n) then [n] else []) + LastIndexes(args, n + 1)
  }

  /** Some argument from `n` on has the keyword `k`. */
  ghost predicate Occurs(args: seq<Arg>, n: nat, k: Keyword) {
    exists j :: n <= j < |args| && args[j].keyword == k
  }

  lemma OccursFirst(args: seq<Arg>, n: nat, k: Keyword)
    requires n < |args|
    ensures Occurs(args, n, k) <==> k == args[n].keyword || Occurs(args, n + 1, k)
    ensures IsLast(args, n) <==> !Occurs(args, n + 1, args[n].keyword)
  {
  }

  lemma {:induction false} FoldBackSeen(args: seq<Arg>, n: nat, k: Keyword)
    requires n <= |args|
    ensures k in FoldBack(args, n).1 <==> Occurs(args, n, k)
    decreases |args| - n
  {
    hide IsLast;
    if n < |args| {
      FoldBackSeen(args, n + 1, k);
      OccursFirst(args, n, k);
    }
  }

  lemma ReverseSnoc<T>(s: seq<T>, x: T)
    ensures Reverse(s + [x]) == [x] + Reverse(s)
  {
    assert (s + [x])[..|s|] == s;
  }

  lemma {:induction false} FoldBackIndexes(args: seq<Arg>, n: nat)
    requires n <= |args|
    ensures Reverse(FoldBack(args, n).0) == LastIndexes(args, n)
    decreases |args| - n
  {
    hide IsLast, Occurs;
    if n < |args| {
      FoldBackIndexes(args, n + 1);
      FoldBackSeen(args, n + 1, args[n].keyword);
      OccursFirst(args, n, args[n].keyword);
      ReverseSnoc(FoldBack(args, n + 1).0, n);
    }
  }

  lemma {:induction false} LastIndexesMembers(args: seq<Arg>, n: nat, i: nat)
    requires n <= |args|
    ensures i in LastIndexes(args, n) <==> n <= i && IsLast(args, i)
    decreases |args| - n
  {
    hide IsLast;
    if n < |args| {
      LastIndexesMembers(args, n + 1, i);
    } else {
      NoLast(args, i);
    }
  }

  lemma NoLast(args: seq<Arg>, i: nat)
    ensures IsLast(args, i) ==> i < |args|
  {
  }

  lemma {:induction false} LastIndexesAscend(args: seq<Arg>, n: nat, x: nat, y: nat)
    requires n <= |args| && x < y < |LastIndexes(args, n)|
    ensures LastIndexes(args, n)[x] < LastIndexes(args, n)[y]
    decreases |args| - n
  {
    hide IsLast;
    if !IsLast(args, n) {
      LastIndexesAscend(args, n + 1, x, y);
    } else if x > 0 {
      LastIndexesAscend(args, n + 1, x - 1, y - 1);
    }
  }

  /** The selected positions are exactly the last occurrence of each keyword, in ascending order. */
  lemma UniqueIndexesAreLast(args: seq<Arg>)
    ensures UniqueIndexes(args) == LastIndexes(args, 0)
    ensures forall i :: i in UniqueIndexes(args) <==> IsLast(args, i)
    ensures forall x, y :: 0 <= x < y < |UniqueIndexes(args)| ==> UniqueIndexes(args)[x] < UniqueIndexes(args)[y]
  {
    FoldBackIndexes(args, 0);
    var r := UniqueIndexes(args);
    hide IsLast, LastIndexes;
    forall i: nat ensures i in r <==> IsLast(args, i) {
      LastIndexesMembers(args, 0, i);
    }
    forall x, y | 0 <= x < y < |r| ensures r[x] < r[y] {
      LastIndexesAscend(args, 0, x, y);
    }
  }

  /** `unique_args`. */
  function UniqueArgs(args: seq<Arg>): seq<Arg> {
    Pick(args, UniqueIndexes(args))
  }

  function Pick(args: seq<Arg>, indexes: seq<nat>): seq<Arg> {
    if indexes == [] then []
    else (if indexes[0] < |args| then [args[indexes[0]]] else []) + Pick(args, indexes[1..])
  }

  /** The arguments from `n` on that are the last of their keyword. */
  function LastArgs(args: seq<Arg>, n: nat): seq<Arg>
    requires n <= |args|
    decreases |args| - n
  {
    if n == |args| then []
    else (if IsLast(args, n) then [args[n]] else []) + LastArgs(args, n + 1)
  }

  lemma {:induction false} PickLast(args: seq<Arg>, n: nat)
    requires n <= |args|
    ensures Pick(args, LastIndexes(args, n)) == LastArgs(args, n)
    decreases |args| - n
  {
    hide IsLast, Pick;
    if n == |args| {
      PickNone(args);
    } else {
      PickLast(args, n + 1);
      if IsLast(args, n) {
        PickFirst(args, n, LastIndexes(args, n + 1));
      } else {
        assert LastIndexes(args, n) == LastIndexes(args, n + 1);
      }
    }
  }

  lemma PickNone(args: seq<Arg>)
    ensures Pick(args, []) == []
  {
  }

  lemma PickFirst(args: seq<Arg>, i: nat, rest: seq<nat>)
    requires i < |args|
    ensures Pick(args, [i] + rest) == [args[i]] + Pick(args, rest)
  {
    assert ([i] + rest)[1..] == rest;
  }

  lemma UniqueArgsAreLast(args: seq<Arg>)
    ensures UniqueArgs(args) == LastArgs(args, 0)
  {
    FoldBackIndexes(args, 0);
    PickLast(args, 0);
  }

  // ---- Printing ----------------------------------------------------------------------------------------------

  function Piece(a: Arg): Bytes {
    a.keyword.name + [EQUALS] + UrlText(a.value)
  }

  /** The arguments that leave something in the query. */
  function NonEmpty(ps: seq<Arg>): seq<Arg> {
    if ps == [] then []
    else NonEmpty(ps[..|ps| - 1]) + if ps[|ps| - 1].value == [] then [] else [ps[|ps| - 1]]
  }

  /** Every piece with its `&`, as the stream holds them. */
  function Terminated(ps: seq<Arg>): Bytes {
    if ps == [] then [] else Terminated(ps[..|ps| - 1]) + (Piece(ps[|ps| - 1]) + [AMP])
  }

  function Joined(ps: seq<Arg>): Bytes {
    if ps == [] then [] else Terminated(ps[..|ps| - 1]) + Piece(ps[|ps| - 1])
  }

  /**
   * Splitting the query on `&` and `=` and percent-decoding gives exactly the last value supplied
   * for each keyword, minus the empty ones, in order of last occurrence, if and only if no printed
   * keyword's name contains one of the two separators.
   */
  method MakeQuery(args: seq<Arg>) returns (r: Bytes)
    ensures r == Joined(NonEmpty(LastArgs(args, 0)))
    ensures var ps := NonEmpty(LastArgs(args, 0)); ReadQuery(r) == Pairs(ps) <==> AllClean(ps)
  {
    hide *;
    UniqueArgsAreLast(args);
    JoinedReadsBack(NonEmpty(LastArgs(args, 0)));
    r := PrintParameters(UniqueArgs(args));
  }

  /** The loop over the selected parameters and the trimming of the last `&`. */
  method PrintParameters(p: seq<Arg>) returns (r: Bytes)
    ensures r == Joined(NonEmpty(p))
  {
    hide Piece, NonEmpty, Terminated, Joined;
    NonePrinted();
    var os := [];
    for k := 0 to |p|
      invariant os == Terminated(NonEmpty(p[..k]))
    {
      OneMorePrinted(p, k);
      var pos := |os|;
      os := PrintParameter(os, p[k]);
      if |os| != pos {
        os := os + [AMP];
      }
    }
    assert p[..|p|] == p;
    Trimmed(NonEmpty(p));
    r := os;
    if r != [] && r[|r| - 1] == AMP {
      r := r[..|r| - 1];
    }
  }

  lemma NonePrinted()
    ensures Terminated(NonEmpty([])) == []
  {
  }

  lemma OneMorePrinted(p: seq<Arg>, k: nat)
    requires k < |p|
    ensures Terminated(NonEmpty(p[..k + 1])) ==
            Terminated(NonEmpty(p[..k])) + if p[k].value == [] then [] else Piece(p[k]) + [AMP]
  {
    hide Piece;
    var before := NonEmpty(p[..k]);
    assert p[..k + 1][..k] == p[..k];
    if p[k].value == [] {
      assert NonEmpty(p[..k + 1]) == before;
    } else {
      var after := before + [p[k]];
      assert NonEmpty(p[..k + 1]) == after && after[..|before|] == before;
    }
  }

  /** Dropping the last `&` of the stream leaves the joined pieces. */
  lemma Trimmed(ps: seq<Arg>)
    ensures var t := Terminated(ps);
            if t == [] then Joined(ps) == [] else t[|t| - 1] == AMP && Joined(ps) == t[..|t| - 1]
  {
    hide Piece;
  }

  method PrintParameter(os: Bytes, a: Arg) returns (r: Bytes)
    ensures r == if a.value == [] then os else os + Piece(a)
    ensures a.value != [] ==> |r| > |os|
  {
    r := os;
    if a.value != [] {
      var v := EncodeUrl(a.value);
      r := r + a.keyword.name + [EQUALS] + v;
    }
  }

  // ---- Reading a query back --------------------------------------------------------------------------------------

  datatype Pair = Pair(name: Bytes, value: Bytes)

  function ReadPair(p: Bytes): Pair {
    var n := Before(p, Code('='));
    Pair(n, if |n| < |p| then PercentDecode(p[|n| + 1..]) else [])
  }

  function ReadPairs(ps: seq<Bytes>): (r: seq<Pair>)
    ensures |r| == |ps|
  {
    if ps == [] then [] else ReadPairs(ps[..|ps| - 1]) + [ReadPair(ps[|ps| - 1])]
  }

  function ReadQuery(q: Bytes): seq<Pair> {
    if q == [] then [] else ReadPairs(Split(q, Code('&')))
  }

  /** The name and the last non-empty value of each keyword, in order of last occurrence. */
  function Pairs(ps: seq<Arg>): (r: seq<Pair>)
    ensures |r| == |ps|
  {
    if ps == [] then [] else Pairs(ps[..|ps| - 1]) + [Pair(ps[|ps| - 1].keyword.name, ps[|ps| - 1].value)]
  }

  predicate CleanName(name: Bytes) {
    Code('&') !in name && Code('=') !in name
  }

  lemma PieceAmp(a: Arg)
    ensures AMP in Piece(a) <==> AMP in a.keyword.name
  {
    UrlTextIsSafe(a.value);
  }

  /** One piece reads back as its pair exactly when its name has no `=`. */
  lemma PieceReadsBack(a: Arg)
    ensures ReadPair(Piece(a)) == Pair(a.keyword.name, a.value) <==> EQUALS !in a.keyword.name
  {
    var n := a.keyword.name;
    hide UrlText, PercentDecode, Before;
    var rest := [EQUALS] + UrlText(a.value);
    assert Piece(a) == n + rest;
    BeforeExtends(n, EQUALS, rest);
    if EQUALS !in n {
      BeforeAt(EQUALS, UrlText(a.value));
      assert Piece(a)[|n| + 1..] == UrlText(a.value);
      UrlRoundTrip(a.value);
    }
  }

  // ---- The round trip ------------------------------------------------------------------------------------------

  predicate AllClean(ps: seq<Arg>) {
    forall k :: 0 <= k < |ps| ==> CleanName(ps[k].keyword.name)
  }

  predicate NoAmp(ps: seq<Arg>) {
    forall k :: 0 <= k < |ps| ==> AMP !in ps[k].keyword.name
  }

  lemma NoAmpLast(ps: seq<Arg>)
    requires ps != []
    ensures NoAmp(ps) <==> NoAmp(ps[..|ps| - 1]) && AMP !in ps[|ps| - 1].keyword.name
  {
  }

  function Pieces(ps: seq<Arg>): (r: seq<Bytes>)
    ensures |r| == |ps|
  {
    if ps == [] then [] else Pieces(ps[..|ps| - 1]) + [Piece(ps[|ps| - 1])]
  }

  /** The stream with a `&` after every piece splits into the pieces and an empty rest. */
  lemma {:induction false} TerminatedSplits(ps: seq<Arg>, tail: Bytes)
    ensures var r := Split(Terminated(ps) + tail, AMP);
            && |r| >= |ps| + |Split(tail, AMP)|
            && (NoAmp(ps) ==> r == Pieces(ps) + Split(tail, AMP))
            && (!NoAmp(ps) ==> |r| > |ps| + |Split(tail, AMP)|)
  {
    hide Split, Piece;
    if ps == [] {
      assert Terminated(ps) + tail == tail;
    } else {
      var front, a := ps[..|ps| - 1], ps[|ps| - 1];
      var more := Piece(a) + ([AMP] + tail);
      assert Terminated(ps) + tail == Terminated(front) + more;
      TerminatedSplits(front, more);
      SplitAt(Piece(a), AMP, tail);
      FirstSplit(Piece(a), AMP);
      PieceAmp(a);
      NoAmpLast(ps);
      assert Pieces(ps) == Pieces(front) + [Piece(a)];
    }
  }

  lemma JoinedSplits(ps: seq<Arg>)
    requires ps != []
    ensures NoAmp(ps) ==> Split(Joined(ps), AMP) == Pieces(ps)
    ensures !NoAmp(ps) ==> |Split(Joined(ps), AMP)| > |ps|
  {
    hide Split, Piece;
    var front, a := ps[..|ps| - 1], ps[|ps| - 1];
    assert Joined(ps) == Terminated(front) + Piece(a);
    assert Pieces(ps) == Pieces(front) + [Piece(a)];
    hide Joined, Terminated, Pieces, NoAmp;
    TerminatedSplits(front, Piece(a));
    FirstSplit(Piece(a), AMP);
    PieceAmp(a);
    NoAmpLast(ps);
  }

  lemma {:induction false} PiecesReadBack(ps: seq<Arg>)
    ensures ReadPairs(Pieces(ps)) == Pairs(ps) <==>
            forall k :: 0 <= k < |ps| ==> EQUALS !in ps[k].keyword.name
  {
    hide Piece, ReadPair;
    if ps != [] {
      var m := |ps| - 1;
      PiecesReadBack(ps[..m]);
      PieceReadsBack(ps[m]);
      assert Pieces(ps)[..m] == Pieces(ps[..m]);
      var x, y := ReadPairs(Pieces(ps)), Pairs(ps);
      assert x[..m] == ReadPairs(Pieces(ps[..m])) && y[..m] == Pairs(ps[..m]);
      assert x == x[..m] + [x[m]] && y == y[..m] + [y[m]];
    }
  }

  lemma JoinedReadsBack(ps: seq<Arg>)
    ensures ReadQuery(Joined(ps)) == Pairs(ps) <==> AllClean(ps)
  {
    hide Split, Piece, ReadPairs, Pairs, Pieces;
    if ps != [] {
      assert Joined(ps) != [] by {
        NonEmptyPiece(ps[|ps| - 1]);
      }
      JoinedSplits(ps);
      PiecesReadBack(ps);
      assert AllClean(ps) <==> NoAmp(ps) && forall k :: 0 <= k < |ps| ==> EQUALS !in ps[k].keyword.name;
    } else {
      assert Pairs([]) == [] by {
        NoPairs();
      }
    }
  }

  lemma NonEmptyPiece(a: Arg)
    ensures Piece(a) != []
  {
  }

  lemma NoPairs()
    ensures Pairs([]) == []
  {
  }
}
