/** Glob matching: a pattern of single-character tokens and stars against a whole string. */
module Fnmatch {

  /** A C character; 0 ends a string and occurs in none. */
  type cchar = c: int | -128 <= c < 128

  /** A string without its terminating 0. */
  type cstring = s: seq<cchar> | forall i :: 0 <= i < |s| ==> s[i] != 0

  const STAR: cchar := 42
  const QUESTION: cchar := 63
  const OPEN: cchar := 91
  const CLOSE: cchar := 93
  const BACKSLASH: cchar := 92
  const BANG: cchar := 33
  const CARET: cchar := 94
  const DASH: cchar := 45
  const SPACE: cchar := 32

  /** The character at a position, 0 at the end and beyond. */
  function At(s: cstring, i: nat): cchar {
    if i < |s| then s[i] else 0
  }

  // ----- what a pattern means -----

  /** A range of characters; a single character is a range of one. */
  datatype Range = Range(low: cchar, high: cchar)

  predicate Has(ranges: seq<Range>, c: cchar) {
    exists i :: 0 <= i < |ranges| && ranges[i].low <= c <= ranges[i].high
  }

  /** What one token accepts. */
  datatype Class = Any | Exactly(c: cchar) | OneOf(negate: bool, ranges: seq<Range>)

  predicate Accepts(k: Class, c: cchar) {
    match k
    case Any => true
    case Exactly(d) => c == d
    case OneOf(negate, ranges) => Has(ranges, c) != negate
  }

  datatype List = Unclosed | Closed(end: nat, ranges: seq<Range>)

  function Cons(r: Range, rest: List): List {
    match rest
    case Unclosed => Unclosed
    case Closed(end, ranges) => Closed(end, [r] + ranges)
  }

  datatype Item = Broken | Item(range: Range, next: nat)

  /** One character or range of a bracket list; literal: an escape sign here stands for itself. */
  function ItemAt(p: cstring, k: nat, literal: bool, escape: bool): (r: Item)
    requires k < |p|
    ensures r.Item? ==> k < r.next <= |p|
  {
    var a := if !literal && escape && p[k] == BACKSLASH then k + 1 else k;
    if At(p, a) == 0 then Broken
    else if At(p, a + 1) == DASH && At(p, a + 2) != CLOSE then
      var b := if escape && At(p, a + 2) == BACKSLASH then a + 3 else a + 2;
      if At(p, b) == 0 then Broken else Item(Range(p[a], p[b]), b + 1)
    else Item(Range(p[a], p[a]), a + 1)
  }

  /** The bracket list from position k on; at its start (lead) a ']' is an ordinary character. */
  function ParseList(p: cstring, k: nat, lead: bool, escape: bool): (r: List)
    requires lead ==> At(p, k) == CLOSE
    ensures r.Closed? ==> k < r.end <= |p|
    decreases |p| - k
  {
    if k >= |p| then Unclosed
    else if !lead && p[k] == CLOSE then Closed(k + 1, [])
    else
      var item := ItemAt(p, k, lead, escape);
      if item.Broken? then Unclosed else Cons(item.range, ParseList(p, item.next, false, escape))
  }

  datatype Token = Token(end: nat, accepts: Class)

  function ListStart(p: cstring, i: nat): nat {
    if At(p, i + 1) == BANG || At(p, i + 1) == CARET then i + 2 else i + 1
  }

  /** The token at position i, for any character but a star; an unclosed bracket is itself. */
  function TokenAt(p: cstring, i: nat, escape: bool): (t: Token)
    requires i < |p|
    ensures i < t.end <= |p|
  {
    if p[i] == QUESTION then Token(i + 1, Any)
    else if p[i] == OPEN then
      var k := ListStart(p, i);
      match ParseList(p, k, At(p, k) == CLOSE, escape)
      case Unclosed => Token(i + 1, Exactly(OPEN))
      case Closed(end, ranges) => Token(end, OneOf(k == i + 2, ranges))
    else if escape && p[i] == BACKSLASH && At(p, i + 1) != 0 then Token(i + 2, Exactly(p[i + 1]))
    else Token(i + 1, Exactly(p[i]))
  }

  /** The rest of the pattern matches the rest of the string: a star stands for any characters. */
  predicate Matches(p: cstring, i: nat, s: cstring, j: nat, escape: bool)
    requires i <= |p| && j <= |s|
    decreases |p| - i, |s| - j
  {
    if i == |p| then j == |s|
    else if p[i] == STAR then Matches(p, i + 1, s, j, escape) || (j < |s| && Matches(p, i, s, j + 1, escape))
    else
      var t := TokenAt(p, i, escape);
      j < |s| && Accepts(t.accepts, s[j]) && Matches(p, t.end, s, j + 1, escape)
  }

  // ----- facts the matcher relies on -----

  /** The rest of the pattern matches from j or from a later position. */
  ghost predicate Later(p: cstring, i: nat, s: cstring, j: nat, escape: bool)
    requires i <= |p|
  {
    exists k: nat :: j <= k <= |s| && Matches(p, i, s, k, escape)
  }

  lemma {:induction false} StarIsLater(p: cstring, i: nat, s: cstring, j: nat, escape: bool)
    requires i < |p| && p[i] == STAR && j <= |s|
    ensures Matches(p, i, s, j, escape) <==> Later(p, i + 1, s, j, escape)
    decreases |s| - j
  {
    if j < |s| {
      StarIsLater(p, i, s, j + 1, escape);
    }
  }

  /** A pattern that starts with a star matches from every earlier position, too. */
  lemma StarMonotone(p: cstring, i: nat, s: cstring, j: nat, j': nat, escape: bool)
    requires i < |p| && p[i] == STAR && j <= j' <= |s| && Matches(p, i, s, j', escape)
    ensures Matches(p, i, s, j, escape)
  {
    StarIsLater(p, i, s, j', escape);
    StarIsLater(p, i, s, j, escape);
  }

  /** Under an open star, another star changes nothing. */
  lemma LaterStar(p: cstring, i: nat, s: cstring, j: nat, escape: bool)
    requires i < |p| && p[i] == STAR && j <= |s|
    ensures Later(p, i, s, j, escape) <==> Later(p, i + 1, s, j, escape)
  {
    if k: nat :| j <= k <= |s| && Matches(p, i, s, k, escape) { StarIsLater(p, i, s, k, escape); }
    StarIsLater(p, i, s, j, escape);
  }

  /** Two stars in a row mean one. */
  lemma StarsCollapse(p: cstring, i: nat, s: cstring, j: nat, escape: bool)
    requires i + 1 < |p| && p[i] == STAR && p[i + 1] == STAR && j <= |s|
    ensures Matches(p, i, s, j, escape) <==> Matches(p, i + 1, s, j, escape)
  {
    StarIsLater(p, i, s, j, escape);
    LaterStar(p, i + 1, s, j, escape);
    StarIsLater(p, i + 1, s, j, escape);
  }

  /** The pattern "[]" is no empty list, as its documentation has it, but stands for itself. */
  lemma EmptyListIsLiteral(s: cstring, escape: bool)
    ensures Matches([OPEN, CLOSE], 0, s, 0, escape) <==> s == [OPEN, CLOSE]
  {
    var p: cstring := [OPEN, CLOSE];
    assert ParseList(p, 2, false, escape) == Unclosed;
    assert TokenAt(p, 0, escape) == Token(1, Exactly(OPEN));
    assert TokenAt(p, 1, escape) == Token(2, Exactly(CLOSE));
    if |s| >= 1 { assert Matches(p, 1, s, 1, escape) <==> |s| == 2 && s[1] == CLOSE; }
  }

  /** Under an open star, a question mark takes one character. */
  lemma LaterQuestion(p: cstring, i: nat, s: cstring, j: nat, escape: bool)
    requires i < |p| && p[i] == QUESTION && j <= |s|
    ensures Later(p, i, s, j, escape) <==> j < |s| && Later(p, i + 1, s, j + 1, escape)
  {
    if k: nat :| j <= k <= |s| && Matches(p, i, s, k, escape) {
      assert j + 1 <= k + 1 <= |s| && Matches(p, i + 1, s, k + 1, escape);
    }
    if j < |s| {
      if Later(p, i + 1, s, j + 1, escape) {
        var k: nat :| j + 1 <= k <= |s| && Matches(p, i + 1, s, k, escape);
        assert Matches(p, i, s, k - 1, escape);
      }
    }
  }

  /** Tokens before the next star or the end of the pattern. */
  function FixedCount(p: cstring, i: nat, escape: bool): nat
    requires i <= |p|
    decreases |p| - i
  {
    if i == |p| || p[i] == STAR then 0 else 1 + FixedCount(p, TokenAt(p, i, escape).end, escape)
  }

  function FixedEnd(p: cstring, i: nat, escape: bool): (e: nat)
    requires i <= |p|
    ensures i <= e <= |p| && (e < |p| ==> p[e] == STAR)
    decreases |p| - i
  {
    if i == |p| || p[i] == STAR then i else FixedEnd(p, TokenAt(p, i, escape).end, escape)
  }

  /** A match of the fixed tokens takes as many characters, and the rest matches after them. */
  lemma {:induction false} FixedMatch(p: cstring, i: nat, s: cstring, j: nat, escape: bool)
    requires i <= |p| && j <= |s| && Matches(p, i, s, j, escape)
    ensures j + FixedCount(p, i, escape) <= |s|
    ensures Matches(p, FixedEnd(p, i, escape), s, j + FixedCount(p, i, escape), escape)
    decreases |p| - i
  {
    if i < |p| && p[i] != STAR {
      FixedMatch(p, TokenAt(p, i, escape).end, s, j + 1, escape);
    }
  }

  /** Too few characters left: no later match. */
  lemma NoRoom(p: cstring, i: nat, s: cstring, j: nat, escape: bool)
    requires i <= |p| && j + FixedCount(p, i, escape) > |s|
    ensures !Later(p, i, s, j, escape)
  {
    if k: nat :| j <= k <= |s| && Matches(p, i, s, k, escape) { FixedMatch(p, i, s, k, escape); }
  }

  /** A segment that runs to the end of the pattern must take the last characters. */
  lemma LaterAnchored(p: cstring, i: nat, s: cstring, j: nat, escape: bool)
    requires i <= |p| && FixedEnd(p, i, escape) == |p| && j + FixedCount(p, i, escape) <= |s|
    ensures Later(p, i, s, j, escape) <==> Matches(p, i, s, |s| - FixedCount(p, i, escape), escape)
  {
    if k: nat :| j <= k <= |s| && Matches(p, i, s, k, escape) { FixedMatch(p, i, s, k, escape); }
  }

  /** Giving up one start of a segment loses nothing if the segment fails there. */
  lemma LaterNext(p: cstring, i: nat, s: cstring, j: nat, escape: bool)
    requires i <= |p| && j < |s| && !Matches(p, i, s, j, escape)
    ensures Later(p, i, s, j, escape) <==> Later(p, i, s, j + 1, escape)
  {
  }

  /** The leftmost place where the segment before a star fits decides: later ones are no better. */
  lemma LeftmostSuffices(p: cstring, i: nat, s: cstring, j: nat, m: nat, escape: bool)
    requires i <= |p| && m == FixedEnd(p, i, escape) < |p| && j + FixedCount(p, i, escape) <= |s|
    requires Matches(p, i, s, j, escape) == Matches(p, m, s, j + FixedCount(p, i, escape), escape)
    ensures Later(p, i, s, j, escape) <==> Matches(p, m, s, j + FixedCount(p, i, escape), escape)
  {
    if k: nat :| j <= k <= |s| && Matches(p, i, s, k, escape) {
      FixedMatch(p, i, s, k, escape);
      StarMonotone(p, m, s, j + FixedCount(p, i, escape), k + FixedCount(p, i, escape), escape);
    }
  }

  // ----- the matcher -----

  const NOMATCH: int := 1

  /** Scans one character or range of a bracket list for a character. */
  method ScanItem(p: cstring, k: nat, literal: bool, c: cchar, escape: bool) returns (ok: bool, next: nat, hit: bool)
    requires k < |p|
    ensures var r := ItemAt(p, k, literal, escape);
            ok == r.Item? && (ok ==> next == r.next && (hit <==> r.range.low <= c <= r.range.high))
  {
    var i := k;
    if !literal && escape && p[i] == BACKSLASH {
      i := i + 1;
      if At(p, i) == 0 {
        return false, i, false;
      }
    }
    if At(p, i + 1) == DASH && At(p, i + 2) != CLOSE {
      var start := p[i];
      i := if escape && At(p, i + 2) == BACKSLASH then i + 3 else i + 2;
      if At(p, i) == 0 {
        return false, i, false;
      }
      return true, i + 1, start <= c <= p[i];
    }
    return true, i + 1, c == p[i];
  }

  /** Scans a bracket list for a character, up to its closing bracket or the end of the pattern. */
  method ScanList(p: cstring, k: nat, leading: bool, c: cchar, escape: bool) returns (closed: bool, end: nat, result: int)
    requires leading ==> At(p, k) == CLOSE
    ensures result == 0 || result == NOMATCH
    ensures var l := ParseList(p, k, leading, escape);
            closed == l.Closed? && (closed ==> end == l.end && (result == 0 <==> Has(l.ranges, c)))
  {
    hide ItemAt;
    var i, lead := k, leading;
    result := NOMATCH;
    ghost var all := ParseList(p, k, leading, escape);
    ghost var seen: seq<Range> := [];
    AppendNothing(all);
    while i < |p|
      invariant lead ==> At(p, i) == CLOSE
      invariant all == Append(seen, ParseList(p, i, lead, escape))
      invariant result == (if Has(seen, c) then 0 else NOMATCH)
      decreases |p| - i
    {
      if !lead && p[i] == CLOSE {
        assert seen + [] == seen;
        return true, i + 1, result;
      }
      ghost var range := ItemAt(p, i, lead, escape);
      var ok, next, hit := ScanItem(p, i, lead, c, escape);
      if !ok {
        break;
      }
      if hit {
        result := 0;
      }
      HasAppend(seen, range.range, c);
      AppendCons(seen, range.range, ParseList(p, next, false, escape));
      seen := seen + [range.range];
      i, lead := next, false;
    }
    return false, i, result;
  }

  /**
   * Matches one token against one character and moves past both.  A bracket list that is not
   * closed is undone and '[' stands for itself.
   */
  method FnmatchCh(p: cstring, i: nat, s: cstring, j: nat, escape: bool) returns (result: int, i': nat, j': nat)
    requires i < |p| && j < |s|
    ensures i' == TokenAt(p, i, escape).end && j' == j + 1
    ensures result == 0 || result == NOMATCH
    ensures result == 0 <==> Accepts(TokenAt(p, i, escape).accepts, s[j])
  {
    i', j' := i, j;
    result := NOMATCH;
    if p[i] == OPEN {
      i' := i + 1;
      var negate := At(p, i') == BANG || At(p, i') == CARET;
      if negate {
        i' := i' + 1;
      }
      var closed, end, found := ScanList(p, i', At(p, i') == CLOSE, s[j], escape);
      if closed {
        return if (found == 0) != negate then 0 else NOMATCH, end, j + 1;
      }
      i' := i;
    } else if p[i] == QUESTION {
      return 0, i + 1, j + 1;
    } else if escape && p[i] == BACKSLASH && At(p, i + 1) != 0 {
      i' := i + 1;
    }
    if s[j] == p[i'] {
      result := 0;
    }
    i', j' := i' + 1, j + 1;
  }

  lemma AppendNothing(l: List)
    ensures Append([], l) == l
  {
    if l.Closed? { assert [] + l.ranges == l.ranges; }
  }

  function Append(seen: seq<Range>, rest: List): List {
    match rest
    case Unclosed => Unclosed
    case Closed(end, ranges) => Closed(end, seen + ranges)
  }

  lemma AppendCons(seen: seq<Range>, r: Range, rest: List)
    ensures Append(seen, Cons(r, rest)) == Append(seen + [r], rest)
  {
    if rest.Closed? { assert seen + ([r] + rest.ranges) == seen + [r] + rest.ranges; }
  }

  lemma HasAppend(seen: seq<Range>, r: Range, c: cchar)
    ensures Has(seen + [r], c) <==> Has(seen, c) || r.low <= c <= r.high
  {
    var all := seen + [r];
    assert all[|seen|] == r;
    if i :| 0 <= i < |seen| && seen[i].low <= c <= seen[i].high { assert all[i] == seen[i]; }
  }

  /**
   * Matches a pattern against a whole string, trying each segment between stars at its
   * leftmost place and the last one at the end of the string.
   */
  method FnMatch(p: cstring, s: cstring, escape: bool) returns (r: int)
    ensures r == 0 || r == NOMATCH
    ensures r == 0 <==> Matches(p, 0, s, 0, escape)
  {
    var i: nat, j: nat := 0, 0;
    var first := At(p, 0) == STAR;
    while first || (At(p, i) != 0 && At(s, j) != 0)
      invariant i <= |p| && j <= |s|
      invariant Matches(p, i, s, j, escape) == Matches(p, 0, s, 0, escape)
      invariant if i == j == 0 then first == (At(p, 0) == STAR) || |p| == |s| == 0 else i == |p| && j == |s| && !first
      decreases |p| - i + (if first then 1 else 0)
    {
      first := false;
      ghost var before := i;
      while i < |p|
        invariant i <= |p| && j <= |s| && before <= i
        invariant Matches(p, i, s, j, escape) == Matches(p, 0, s, 0, escape)
        decreases |p| - i
      {
        if j == |s| && p[i] != STAR {
          break;
        }
        var ok;
        ok, i, j := Segment(p, i, s, j, escape);
        if !ok {
          return NOMATCH;
        }
      }
      if j < |s| {
        return NOMATCH;
      }
      if i < |p| {
        return NOMATCH;
      }
    }
    if At(s, j) == 0 && At(p, i) == 0 {
      return 0;
    }
    return NOMATCH;
  }

  /** Counts the tokens before the next star or the end of the pattern. */
  method MeasureSegment(p: cstring, i: nat, escape: bool) returns (matchlen: nat, matchptr: nat)
    requires i <= |p|
    ensures matchlen == FixedCount(p, i, escape) && matchptr == FixedEnd(p, i, escape)
  {
    matchptr, matchlen := i, 0;
    while matchptr < |p| && p[matchptr] != STAR
      invariant i <= matchptr <= |p|
      invariant FixedCount(p, i, escape) == matchlen + FixedCount(p, matchptr, escape)
      invariant FixedEnd(p, i, escape) == FixedEnd(p, matchptr, escape)
    {
      if escape && p[matchptr] == BACKSLASH && At(p, matchptr + 1) != 0 {
        matchptr := matchptr + 2;
      } else if p[matchptr] == OPEN {
        var dummy: cstring := [SPACE];
        var _, next, _ := FnmatchCh(p, matchptr, dummy, 0, escape);
        matchptr := next;
      } else {
        matchptr := matchptr + 1;
      }
      matchlen := matchlen + 1;
    }
  }

  /** Passes a group of stars and question marks: each question mark takes a character, a star opens a gap. */
  method Wildcards(p: cstring, i0: nat, s: cstring, j0: nat, escape: bool) returns (ok: bool, i: nat, j: nat, wild: bool)
    requires i0 < |p| && j0 <= |s|
    ensures !ok ==> !Matches(p, i0, s, j0, escape)
    ensures ok ==>
              && i0 <= i <= |p| && j0 <= j <= |s| && (i == i0 ==> j == j0 && !wild && p[i0] != STAR)
              && Matches(p, i0, s, j0, escape) == if wild then Later(p, i, s, j, escape) else Matches(p, i, s, j, escape)
  {
    ok, i, j, wild := true, i0, j0, false;
    ghost var goal := Matches(p, i0, s, j0, escape);
    while i < |p| && (p[i] == STAR || p[i] == QUESTION)
      invariant ok && i0 <= i <= |p| && j0 <= j <= |s| && (i == i0 ==> j == j0 && !wild)
      invariant goal == if wild then Later(p, i, s, j, escape) else Matches(p, i, s, j, escape)
    {
      if p[i] == STAR {
        if wild { LaterStar(p, i, s, j, escape); } else { StarIsLater(p, i, s, j, escape); }
        wild := true;
      } else {
        if wild { LaterQuestion(p, i, s, j, escape); }
        if j < |s| {
          j := j + 1;
        } else {
          return false, i, j, wild;
        }
      }
      i := i + 1;
    }
  }

  /**
   * One round of the matching loop: a group of stars and question marks, then the tokens up to
   * the next star.  After a star they are retried one character further on until they fit.
   */
  method Segment(p: cstring, i0: nat, s: cstring, j0: nat, escape: bool) returns (ok: bool, i: nat, j: nat)
    requires i0 < |p| && j0 <= |s| && (j0 == |s| ==> p[i0] == STAR)
    ensures !ok ==> !Matches(p, i0, s, j0, escape)
    ensures ok ==> i0 < i <= |p| && j <= |s|
    ensures ok ==> Matches(p, i, s, j, escape) == Matches(p, i0, s, j0, escape)
  {
    ghost var goal := Matches(p, i0, s, j0, escape);
    var wild;
    ok, i, j, wild := Wildcards(p, i0, s, j0, escape);
    if !ok {
      return;
    }

    var strstartseg, mismatch, matchlen := j, i, 0;
    if wild {
      var segmentEnd;
      matchlen, segmentEnd := MeasureSegment(p, i, escape);
      if j + matchlen > |s| {
        NoRoom(p, i, s, j, escape);
        return false, i, j;
      }
      if segmentEnd == |p| {
        LaterAnchored(p, i, s, j, escape);
        j := |s| - matchlen;
        wild := false;
      }
    }

    while i < |p| && j < |s|
      invariant i0 < i <= |p| || (i == i0 && !wild && j == j0)
      invariant i <= |p| && j <= |s|
      invariant !wild ==> goal == Matches(p, i, s, j, escape)
      invariant wild ==>
                  && mismatch <= i && goal == Later(p, mismatch, s, strstartseg, escape)
                  && matchlen == FixedCount(p, mismatch, escape) && FixedEnd(p, mismatch, escape) < |p|
                  && strstartseg + matchlen <= |s|
                  && FixedEnd(p, i, escape) == FixedEnd(p, mismatch, escape)
                  && j + FixedCount(p, i, escape) == strstartseg + matchlen
                  && Matches(p, mismatch, s, strstartseg, escape) == Matches(p, i, s, j, escape)
      decreases if wild then |s| - strstartseg else 0, |p| - i
    {
      if p[i] == STAR {
        break;
      }
      ghost var t := TokenAt(p, i, escape);
      var result;
      result, i, j := FnmatchCh(p, i, s, j, escape);
      if result == 0 {
        continue;
      }
      if wild {
        LaterNext(p, mismatch, s, strstartseg, escape);
        strstartseg := strstartseg + 1;
        j := strstartseg;
        if j + matchlen > |s| {
          NoRoom(p, mismatch, s, strstartseg, escape);
          return false, i, j;
        }
        i := mismatch;
      } else {
        return false, i, j;
      }
    }
    if wild {
      LeftmostSuffices(p, mismatch, s, strstartseg, FixedEnd(p, mismatch, escape), escape);
    }
    ok := true;
  }
}
