/** What a pattern means that is written piece by piece: letters, question marks, stars and bracket lists. */
module FnmatchWritten {
  import opened Fnmatch

  /** A character, maybe behind a backslash. */
  datatype Char = Char(c: cchar, escaped: bool)

  /** What a bracket list lists. */
  datatype Member = One(x: Char) | Span(x: Char, y: Char)

  datatype Piece = Star | Question | Letter(x: Char) | Set(negate: bool, sign: cchar, ms: seq<Member>)

  // ----- writing -----

  function WriteChar(x: Char): seq<cchar> {
    if x.escaped then [BACKSLASH, x.c] else [x.c]
  }

  function WriteMember(m: Member): seq<cchar> {
    match m
    case One(x) => WriteChar(x)
    case Span(x, y) => WriteChar(x) + [DASH] + WriteChar(y)
  }

  function WriteMembers(ms: seq<Member>): seq<cchar> {
    if ms == [] then [] else WriteMember(ms[0]) + WriteMembers(ms[1..])
  }

  function WritePiece(q: Piece): seq<cchar> {
    match q
    case Star => [STAR]
    case Question => [QUESTION]
    case Letter(x) => WriteChar(x)
    case Set(negate, sign, ms) => [OPEN] + (if negate then [sign] else []) + WriteMembers(ms) + [CLOSE]
  }

  function Write(qs: seq<Piece>): seq<cchar> {
    if qs == [] then [] else WritePiece(qs[0]) + Write(qs[1..])
  }

  // ----- what can be written so -----

  /** A character that may stand anywhere in a list: unescaped it is no ']', no '-' and, with escaping, no backslash. */
  predicate Listable(x: Char, escape: bool) {
    && x.c != 0
    && if x.escaped then escape else x.c != CLOSE && x.c != DASH && (escape ==> x.c != BACKSLASH)
  }

  /** The first character of a list may be an unescaped ']'. */
  predicate LeadingClose(ms: seq<Member>) {
    ms != [] && ms[0].x == Char(CLOSE, false)
  }

  predicate Writable(m: Member, lead: bool, escape: bool) {
    && (lead || Listable(m.x, escape))
    && (m.Span? ==> Listable(m.y, escape))
  }

  predicate AllWritable(ms: seq<Member>, lead: bool, escape: bool) {
    && (ms != [] ==> Writable(ms[0], lead, escape))
    && forall i :: 1 <= i < |ms| ==> Writable(ms[i], false, escape)
  }

  predicate WritablePiece(q: Piece, escape: bool) {
    match q
    case Star => true
    case Question => true
    case Letter(x) =>
      && x.c != 0
      && if x.escaped then escape
         else x.c != STAR && x.c != QUESTION && x.c != OPEN && (escape ==> x.c != BACKSLASH)
    case Set(negate, sign, ms) =>
      && ms != [] && AllWritable(ms, LeadingClose(ms), escape)
      && if negate then sign == BANG || sign == CARET
         else ms[0].x.escaped || (ms[0].x.c != BANG && ms[0].x.c != CARET)
  }

  // ----- what it means -----

  predicate Lists(m: Member, c: cchar) {
    match m
    case One(x) => c == x.c
    case Span(x, y) => x.c <= c <= y.c
  }

  predicate Listed(ms: seq<Member>, c: cchar) {
    exists i :: 0 <= i < |ms| && Lists(ms[i], c)
  }

  predicate Fits(q: Piece, c: cchar)
    requires !q.Star?
  {
    match q
    case Question => true
    case Letter(x) => c == x.c
    case Set(negate, sign, ms) => if negate then !Listed(ms, c) else Listed(ms, c)
  }

  /** A star stands for any characters, every other piece for one that fits. */
  ghost predicate Means(qs: seq<Piece>, s: seq<cchar>) {
    if qs == [] then s == []
    else if qs[0].Star? then exists k :: 0 <= k <= |s| && Means(qs[1..], s[k..])
    else s != [] && Fits(qs[0], s[0]) && Means(qs[1..], s[1..])
  }

  // ----- reading what was written -----

  /** The characters of w stand in p from position k on. */
  predicate Spelled(p: seq<cchar>, k: nat, w: seq<cchar>) {
    k + |w| <= |p| && forall i :: 0 <= i < |w| ==> p[k + i] == w[i]
  }

  lemma SpelledParts(p: seq<cchar>, k: nat, v: seq<cchar>, w: seq<cchar>)
    ensures Spelled(p, k, v + w) <==> Spelled(p, k, v) && Spelled(p, k + |v|, w)
  {
    if Spelled(p, k, v) && Spelled(p, k + |v|, w) {
      forall i | 0 <= i < |v + w| ensures p[k + i] == (v + w)[i] {
        if i >= |v| { assert p[k + |v| + (i - |v|)] == w[i - |v|]; }
      }
    }
    if Spelled(p, k, v + w) {
      forall i | 0 <= i < |v| ensures p[k + i] == v[i] { assert (v + w)[i] == v[i]; }
      forall i | 0 <= i < |w| ensures p[k + |v| + i] == w[i] { assert (v + w)[|v| + i] == w[i]; }
    }
  }

  function RangeOf(m: Member): Range {
    match m
    case One(x) => Range(x.c, x.c)
    case Span(x, y) => Range(x.c, y.c)
  }

  function RangesOf(ms: seq<Member>): seq<Range> {
    if ms == [] then [] else [RangeOf(ms[0])] + RangesOf(ms[1..])
  }

  /** One member is read as its range; what follows it is no '-'. */
  lemma ReadMember(p: cstring, k: nat, m: Member, lead: bool, escape: bool)
    requires Spelled(p, k, WriteMember(m)) && Writable(m, lead, escape) && (lead ==> m.x == Char(CLOSE, false))
    requires At(p, k + |WriteMember(m)|) != DASH
    ensures |WriteMember(m)| > 0 && k < |p|
    ensures ItemAt(p, k, lead, escape) == Item(RangeOf(m), k + |WriteMember(m)|)
  {
    match m
    case One(x) =>
      assert Spelled(p, k, WriteChar(x));
      SpelledChar(p, k, x);
    case Span(x, y) =>
      SpelledParts(p, k, WriteChar(x) + [DASH], WriteChar(y));
      SpelledParts(p, k, WriteChar(x), [DASH]);
      SpelledChar(p, k, x);
      SpelledChar(p, k + |WriteChar(x)| + 1, y);
      SpelledOne(p, k + |WriteChar(x)|, DASH);
  }

  lemma SpelledChar(p: cstring, k: nat, x: Char)
    requires Spelled(p, k, WriteChar(x))
    ensures k < |p|
    ensures if x.escaped then p[k] == BACKSLASH && k + 1 < |p| && p[k + 1] == x.c else p[k] == x.c
  {
    assert p[k + 0] == WriteChar(x)[0];
    if x.escaped { assert p[k + 1] == WriteChar(x)[1]; }
  }

  /** A list's members are read one by one up to its closing bracket. */
  lemma {:induction false} ReadMembers(p: cstring, k: nat, ms: seq<Member>, lead: bool, escape: bool)
    requires Spelled(p, k, WriteMembers(ms) + [CLOSE])
    requires AllWritable(ms, lead, escape) && (lead ==> LeadingClose(ms))
    ensures lead ==> At(p, k) == CLOSE
    ensures ParseList(p, k, lead, escape) == Closed(k + |WriteMembers(ms)| + 1, RangesOf(ms))
    decreases |ms|
  {
    hide WriteMember, ItemAt, RangeOf, Spelled, Writable;
    if ms == [] {
      assert WriteMembers(ms) + [CLOSE] == [CLOSE];
      SpelledOne(p, k, CLOSE);
    } else {
      var w, rest := WriteMember(ms[0]), WriteMembers(ms[1..]) + [CLOSE];
      assert WriteMembers(ms) + [CLOSE] == w + rest;
      SpelledParts(p, k, w, rest);
      FirstChar(ms[0], p, k, lead, escape);
      NextIsNoDash(p, k + |w|, ms[1..], escape);
      ReadMember(p, k, ms[0], lead, escape);
      ReadMembers(p, k + |w|, ms[1..], false, escape);
    }
  }

  lemma SpelledOne(p: cstring, k: nat, c: cchar)
    requires Spelled(p, k, [c])
    ensures k < |p| && p[k] == c
  {
    assert p[k + 0] == [c][0];
  }

  /** A member begins with ']' iff it is the leading one. */
  lemma FirstChar(m: Member, p: cstring, k: nat, lead: bool, escape: bool)
    requires Spelled(p, k, WriteMember(m)) && Writable(m, lead, escape) && (lead ==> m.x == Char(CLOSE, false))
    ensures k < |p| && (p[k] == CLOSE <==> lead) && (!lead ==> p[k] != DASH)
  {
    if m.Span? {
      SpelledParts(p, k, WriteChar(m.x) + [DASH], WriteChar(m.y));
      SpelledParts(p, k, WriteChar(m.x), [DASH]);
    }
    SpelledChar(p, k, m.x);
  }

  lemma NextIsNoDash(p: cstring, k: nat, ms: seq<Member>, escape: bool)
    requires Spelled(p, k, WriteMembers(ms) + [CLOSE])
    requires forall i :: 0 <= i < |ms| ==> Writable(ms[i], false, escape)
    ensures At(p, k) != DASH
  {
    hide WriteMember, Spelled, Writable;
    if ms == [] {
      assert WriteMembers(ms) + [CLOSE] == [CLOSE];
      SpelledOne(p, k, CLOSE);
    } else {
      assert WriteMembers(ms) + [CLOSE] == WriteMember(ms[0]) + (WriteMembers(ms[1..]) + [CLOSE]);
      SpelledParts(p, k, WriteMember(ms[0]), WriteMembers(ms[1..]) + [CLOSE]);
      FirstChar(ms[0], p, k, false, escape);
    }
  }

  lemma {:induction false} RangesList(ms: seq<Member>, c: cchar)
    ensures Has(RangesOf(ms), c) <==> Listed(ms, c)
  {
    if ms != [] {
      RangesList(ms[1..], c);
      var rs, r := RangesOf(ms), RangesOf(ms[1..]);
      if i :| 0 <= i < |rs| && rs[i].low <= c <= rs[i].high {
        if i == 0 { assert Lists(ms[0], c); } else { assert rs[i] == r[i - 1]; }
      }
      if Has(r, c) {
        var i :| 0 <= i < |r| && r[i].low <= c <= r[i].high;
        assert rs[i + 1] == r[i];
      }
      if i :| 0 <= i < |ms| && Lists(ms[i], c) {
        if i == 0 { assert rs[0] == RangeOf(ms[0]); } else { assert ms[1..][i - 1] == ms[i]; }
      }
      if i :| 0 <= i < |ms[1..]| && Lists(ms[1..][i], c) { assert ms[i + 1] == ms[1..][i]; }
    }
  }

  /** A written piece is one token, and it accepts the characters that fit. */
  lemma ReadPiece(p: cstring, i: nat, q: Piece, c: cchar, escape: bool)
    requires Spelled(p, i, WritePiece(q)) && WritablePiece(q, escape) && !q.Star?
    ensures i < |p| && p[i] != STAR && TokenAt(p, i, escape).end == i + |WritePiece(q)|
    ensures Accepts(TokenAt(p, i, escape).accepts, c) <==> Fits(q, c)
  {
    match q
    case Question => SpelledOne(p, i, QUESTION);
    case Letter(x) => SpelledChar(p, i, x);
    case Set(negate, sign, ms) => ReadSet(p, i, negate, sign, ms, escape); RangesList(ms, c);
  }

  lemma ReadSet(p: cstring, i: nat, negate: bool, sign: cchar, ms: seq<Member>, escape: bool)
    requires Spelled(p, i, WritePiece(Set(negate, sign, ms))) && WritablePiece(Set(negate, sign, ms), escape)
    ensures i < |p| && p[i] == OPEN
    ensures TokenAt(p, i, escape) == Token(i + |WritePiece(Set(negate, sign, ms))|, OneOf(negate, RangesOf(ms)))
  {
    hide Spelled, ItemAt, WriteMember, Writable;
    var head := if negate then [sign] else [];
    var body := WriteMembers(ms) + [CLOSE];
    assert WritePiece(Set(negate, sign, ms)) == [OPEN] + (head + body);
    SpelledParts(p, i, [OPEN], head + body);
    SpelledOne(p, i, OPEN);
    SpelledParts(p, i + 1, head, body);
    if negate { SpelledOne(p, i + 1, sign); }
    var k := i + 1 + |head|;
    assert body == WriteMember(ms[0]) + (WriteMembers(ms[1..]) + [CLOSE]);
    SpelledParts(p, k, WriteMember(ms[0]), WriteMembers(ms[1..]) + [CLOSE]);
    FirstChar(ms[0], p, k, LeadingClose(ms), escape);
    if !negate { FirstIsNoSign(ms[0], p, k); }
    ReadMembers(p, k, ms, LeadingClose(ms), escape);
  }

  lemma FirstIsNoSign(m: Member, p: cstring, k: nat)
    requires Spelled(p, k, WriteMember(m)) && (m.x.escaped || (m.x.c != BANG && m.x.c != CARET))
    ensures k < |p| && p[k] != BANG && p[k] != CARET
  {
    if m.Span? {
      SpelledParts(p, k, WriteChar(m.x) + [DASH], WriteChar(m.y));
      SpelledParts(p, k, WriteChar(m.x), [DASH]);
    }
    SpelledChar(p, k, m.x);
  }

  // ----- the meaning of whole patterns -----

  ghost predicate AllPieces(qs: seq<Piece>, escape: bool) {
    forall i :: 0 <= i < |qs| ==> WritablePiece(qs[i], escape)
  }

  lemma {:induction false} WrittenFrom(p: cstring, i: nat, qs: seq<Piece>, s: cstring, j: nat, escape: bool)
    requires i <= |p| && j <= |s| && Spelled(p, i, Write(qs)) && i + |Write(qs)| == |p| && AllPieces(qs, escape)
    ensures Matches(p, i, s, j, escape) <==> Means(qs, s[j..])
    decreases |qs|, |s| - j
  {
    hide Spelled, WritePiece, WritablePiece, Fits, TokenAt, Accepts;
    if qs == [] {
      assert i == |p|;
    } else {
      var q, rest := qs[0], qs[1..];
      SpelledParts(p, i, WritePiece(q), Write(rest));
      if q.Star? {
        StarWritten(p, i);
        var n := i + 1;
        StarIsLater(p, i, s, j, escape);
        forall k: nat | j <= k <= |s| ensures Matches(p, n, s, k, escape) <==> Means(rest, s[k..]) {
          WrittenFrom(p, n, rest, s, k, escape);
        }
        if k :| 0 <= k <= |s[j..]| && Means(rest, s[j..][k..]) {
          assert s[j..][k..] == s[j + k..];
          assert Matches(p, n, s, j + k, escape);
        }
        if k: nat :| j <= k <= |s| && Matches(p, n, s, k, escape) { assert s[j..][k - j..] == s[k..]; }
      } else {
        ReadPiece(p, i, q, if j < |s| then s[j] else 1, escape);
        if j < |s| {
          WrittenFrom(p, i + |WritePiece(q)|, rest, s, j + 1, escape);
          assert s[j..][0] == s[j] && s[j..][1..] == s[j + 1..];
        }
      }
    }
  }

  lemma StarWritten(p: cstring, i: nat)
    requires Spelled(p, i, WritePiece(Star))
    ensures |WritePiece(Star)| == 1 && i < |p| && p[i] == STAR
  {
    SpelledOne(p, i, STAR);
  }

  /** A written pattern matches exactly the strings it means. */
  lemma WrittenMeans(qs: seq<Piece>, p: cstring, s: cstring, escape: bool)
    requires AllPieces(qs, escape) && p == Write(qs)
    ensures Matches(p, 0, s, 0, escape) <==> Means(qs, s)
  {
    WrittenFrom(p, 0, qs, s, 0, escape);
    assert s[0..] == s;
  }

  lemma MeansOne(q: Piece, s: seq<cchar>)
    requires !q.Star?
    ensures Write([q]) == WritePiece(q) && (Means([q], s) <==> |s| == 1 && Fits(q, s[0]))
  {
    assert [q][1..] == [] && Write([]) == [];
    if s != [] { assert Means([], s[1..]) <==> s[1..] == []; }
  }

  /** A pattern of one piece matches one character. */
  lemma OnePiece(q: Piece, p: cstring, s: cstring, escape: bool)
    requires !q.Star? && WritablePiece(q, escape) && p == WritePiece(q)
    ensures Matches(p, 0, s, 0, escape) <==> |s| == 1 && Fits(q, s[0])
  {
    hide Fits, WritePiece, WritablePiece, Matches;
    MeansOne(q, s);
    WrittenMeans([q], p, s, escape);
  }

  // ----- bracket lists and letters, written out -----

  /** A character that means itself in a bracket list. */
  predicate Plain(c: cchar) {
    c != 0 && c != 33 && c != 94 && c != 45 && c != 93 && c != 92
  }

  function Ones(xs: seq<cchar>): (ms: seq<Member>)
    ensures |ms| == |xs| && forall i :: 0 <= i < |xs| ==> ms[i] == One(Char(xs[i], false))
  {
    seq(|xs|, i requires 0 <= i < |xs| => One(Char(xs[i], false)))
  }

  lemma {:induction false} WriteOnes(xs: seq<cchar>)
    ensures WriteMembers(Ones(xs)) == xs
  {
    if xs == [] {
      assert Ones(xs) == [];
    } else {
      WriteOnes(xs[1..]);
      assert Ones(xs)[1..] == Ones(xs[1..]);
      assert xs == [xs[0]] + xs[1..];
    }
  }

  lemma OnesList(xs: seq<cchar>, c: cchar)
    ensures Listed(Ones(xs), c) <==> c in xs
  {
    if c in xs {
      var i :| 0 <= i < |xs| && xs[i] == c;
      assert Lists(Ones(xs)[i], c);
    }
  }

  /** "[...]" matches one of the listed characters. */
  lemma ListMatches(xs: seq<cchar>, p: cstring, s: cstring, escape: bool)
    requires xs != [] && (forall i :: 0 <= i < |xs| ==> Plain(xs[i])) && p == [91] + xs + [93]
    ensures Matches(p, 0, s, 0, escape) <==> |s| == 1 && s[0] in xs
  {
    hide Matches, Listed;
    var q := Set(false, BANG, Ones(xs));
    WriteOnes(xs);
    assert WritePiece(q) == p;
    OnePiece(q, p, s, escape);
    if |s| == 1 { OnesList(xs, s[0]); }
  }

  /** "[!...]" and "[^...]" match one character that is not listed. */
  lemma NegatedListMatches(sign: cchar, xs: seq<cchar>, p: cstring, s: cstring, escape: bool)
    requires sign == 33 || sign == 94
    requires xs != [] && (forall i :: 0 <= i < |xs| ==> Plain(xs[i])) && p == [91, sign] + xs + [93]
    ensures Matches(p, 0, s, 0, escape) <==> |s| == 1 && s[0] !in xs
  {
    hide Matches, Listed;
    var q := Set(true, sign, Ones(xs));
    WriteOnes(xs);
    assert WritePiece(q) == p;
    OnePiece(q, p, s, escape);
    if |s| == 1 { OnesList(xs, s[0]); }
  }

  /** "[x]" matches x. */
  lemma ListOfOne(x: cchar, s: cstring, escape: bool)
    requires Plain(x)
    ensures Matches([91, x, 93], 0, s, 0, escape) <==> s == [x]
  {
    hide Matches;
    var p: cstring := [91, x, 93];
    assert p == [91] + [x] + [93];
    ListMatches([x], p, s, escape);
  }

  /** "[!x]" and "[^x]" match one character other than x. */
  lemma ListWithoutOne(sign: cchar, x: cchar, s: cstring, escape: bool)
    requires (sign == 33 || sign == 94) && Plain(x)
    ensures Matches([91, sign, x, 93], 0, s, 0, escape) <==> |s| == 1 && s[0] != x
  {
    hide Matches;
    var p: cstring := [91, sign, x, 93];
    assert p == [91, sign] + [x] + [93];
    NegatedListMatches(sign, [x], p, s, escape);
  }

  /** "[x-y]" matches one character from x to y; none if x is larger. */
  lemma RangeMatches(x: cchar, y: cchar, s: cstring, escape: bool)
    requires Plain(x) && Plain(y)
    ensures Matches([91, x, 45, y, 93], 0, s, 0, escape) <==> |s| == 1 && x <= s[0] <= y
  {
    hide Matches, Listed;
    var p: cstring := [91, x, 45, y, 93];
    var m := Span(Char(x, false), Char(y, false));
    var q := Set(false, BANG, [m]);
    assert WriteMember(m) == [x, 45, y];
    assert WriteMembers([m]) == WriteMember(m) + WriteMembers([]);
    assert WritePiece(q) == p;
    OnePiece(q, p, s, escape);
    if |s| == 1 { ListedOnce(m, s[0]); }
  }

  lemma ListedOnce(m: Member, c: cchar)
    ensures Listed([m], c) <==> Lists(m, c)
  {
    if Lists(m, c) { assert Lists([m][0], c); }
  }

  /** A ']' at the beginning of a list is listed: "[]...]". */
  lemma LeadingCloseMatches(xs: seq<cchar>, p: cstring, s: cstring, escape: bool)
    requires (forall i :: 0 <= i < |xs| ==> Plain(xs[i])) && p == [91, 93] + xs + [93]
    ensures Matches(p, 0, s, 0, escape) <==> |s| == 1 && (s[0] == 93 || s[0] in xs)
  {
    hide Matches, Listed;
    var ms := Ones([CLOSE] + xs);
    var q := Set(false, BANG, ms);
    WriteOnes([CLOSE] + xs);
    assert ms[0] == One(Char(CLOSE, false));
    forall i | 1 <= i < |ms| ensures Writable(ms[i], false, escape) { assert ms[i] == One(Char(xs[i - 1], false)); }
    assert WritePiece(q) == p;
    OnePiece(q, p, s, escape);
    if |s| == 1 { OnesList([CLOSE] + xs, s[0]); }
  }

  /** With escaping, "\x" matches x for every x, and "[\x]" does, too. */
  lemma EscapedMatches(x: cchar, s: cstring)
    requires x != 0
    ensures Matches([92, x], 0, s, 0, true) <==> s == [x]
    ensures Matches([91, 92, x, 93], 0, s, 0, true) <==> s == [x]
  {
    hide Matches, Listed;
    var p: cstring, p': cstring := [92, x], [91, 92, x, 93];
    var letter, m := Letter(Char(x, true)), One(Char(x, true));
    var q := Set(false, BANG, [m]);
    assert WriteMembers([m]) == WriteMember(m) + WriteMembers([]);
    assert WritePiece(letter) == p && WritePiece(q) == p';
    OnePiece(letter, p, s, true);
    OnePiece(q, p', s, true);
    if |s| == 1 { ListedOnce(m, s[0]); }
  }

  // ----- the other pieces, written out -----

  /** "?" matches one character and "*" any string. */
  lemma WildcardsMatch(s: cstring, escape: bool)
    ensures Matches([63], 0, s, 0, escape) <==> |s| == 1
    ensures Matches([42], 0, s, 0, escape)
  {
    hide Matches;
    assert WritePiece(Question) == [63] && Write([Star]) == WritePiece(Star) + Write([]) == [42];
    OnePiece(Question, [63], s, escape);
    WrittenMeans([Star], [42], s, escape);
    assert [Star][1..] == [] && s[|s|..] == [] && Means([], s[|s|..]);
  }

  function Letters(xs: seq<cchar>): (qs: seq<Piece>)
    ensures |qs| == |xs| && forall i :: 0 <= i < |xs| ==> qs[i] == Letter(Char(xs[i], false))
  {
    seq(|xs|, i requires 0 <= i < |xs| => Letter(Char(xs[i], false)))
  }

  lemma {:induction false} LettersMean(xs: seq<cchar>, s: seq<cchar>)
    ensures Write(Letters(xs)) == xs && (Means(Letters(xs), s) <==> s == xs)
    decreases |xs|
  {
    if xs == [] {
      assert Letters(xs) == [];
    } else {
      LettersMean(xs[1..], if s == [] then s else s[1..]);
      assert Letters(xs)[1..] == Letters(xs[1..]) && xs == [xs[0]] + xs[1..];
      if s != [] { assert s == [s[0]] + s[1..]; }
    }
  }

  /** Any other characters match themselves. */
  lemma TextMatches(xs: cstring, s: cstring, escape: bool)
    requires forall i :: 0 <= i < |xs| ==> xs[i] != 42 && xs[i] != 63 && xs[i] != 91 && (escape ==> xs[i] != 92)
    ensures Matches(xs, 0, s, 0, escape) <==> s == xs
  {
    hide Matches;
    LettersMean(xs, s);
    WrittenMeans(Letters(xs), xs, s, escape);
  }

  lemma {:induction false} NeverCloses(p: cstring, k: nat, escape: bool)
    requires forall i :: k <= i < |p| ==> p[i] != CLOSE
    ensures ParseList(p, k, false, escape) == Unclosed
    decreases |p| - k
  {
    hide ItemAt;
    if k < |p| {
      var item := ItemAt(p, k, false, escape);
      if item.Item? { NeverCloses(p, item.next, escape); }
    }
  }

  /** A '[' without any ']' behind it matches itself, and what follows means what it means alone. */
  lemma UnclosedMatches(qs: seq<Piece>, p: cstring, s: cstring, escape: bool)
    requires AllPieces(qs, escape) && p == [91] + Write(qs) && 93 !in p
    ensures Matches(p, 0, s, 0, escape) <==> s != [] && s[0] == 91 && Means(qs, s[1..])
  {
    hide WritablePiece, ParseList;
    NeverCloses(p, ListStart(p, 0), escape);
    assert TokenAt(p, 0, escape) == Token(1, Exactly(OPEN)) && p[0] == 91;
    assert Spelled(p, 1, Write(qs));
    if s != [] { WrittenFrom(p, 1, qs, s, 1, escape); }
  }
}
