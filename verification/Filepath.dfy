/** Merging a path below a root under the secure root test: a buffer edited in place, against a stack of segments. */
module Filepath {
  import opened Arith
  import opened Wrappers

  const PATH_MAX := 8192

  datatype Outcome = Path(path: string) | AboveRoot | NameTooLong

  // ----- segments -----

  /** The length of the first segment, without its slash. */
  function SegLen(s: string): (n: nat)
    ensures n <= |s| && (n < |s| ==> s[n] == '/')
    ensures forall i :: 0 <= i < n ==> s[i] != '/'
  {
    if s == "" || s[0] == '/' then 0 else 1 + SegLen(s[1..])
  }

  /** The first segment with the slash that closes it, if there is one. */
  function FirstSeg(s: string): (seg: string)
    requires s != ""
    ensures 0 < |seg| <= |s| && seg == s[..|seg|]
  {
    if SegLen(s) < |s| then s[..SegLen(s) + 1] else s
  }

  function Split(s: string): seq<string> {
    if s == "" then [] else [FirstSeg(s)] + Split(s[|FirstSeg(s)|..])
  }

  function Concat(segs: seq<string>): string {
    if segs == [] then "" else Concat(segs[..|segs| - 1]) + segs[|segs| - 1]
  }

  /** A segment without its slash. */
  function Name(seg: string): string {
    if seg != "" && seg[|seg| - 1] == '/' then seg[..|seg| - 1] else seg
  }

  predicate IsNoop(seg: string) { Name(seg) == "" || Name(seg) == "." }

  predicate IsUp(seg: string) { Name(seg) == ".." }

  // ----- what a list of segments means -----

  /** The names left after walking the segments, unless one of them leaves an empty stack. */
  function Stack(segs: seq<string>): Option<seq<string>> {
    if segs == [] then Some([])
    else match Stack(segs[..|segs| - 1])
      case None => None
      case Some(stack) =>
        var seg := segs[|segs| - 1];
        if IsNoop(seg) then Some(stack)
        else if !IsUp(seg) then Some(stack + [seg])
        else if stack == [] then None
        else Some(stack[..|stack| - 1])
  }

  /** How many names more than steps up. */
  function Depth(segs: seq<string>): int {
    if segs == [] then 0
    else
      var seg := segs[|segs| - 1];
      Depth(segs[..|segs| - 1]) + (if IsNoop(seg) then 0 else if IsUp(seg) then -1 else 1)
  }

  ghost predicate NeverAbove(segs: seq<string>) {
    forall k :: 0 <= k <= |segs| ==> Depth(segs[..k]) >= 0
  }

  /** The walk stays below the root exactly when no prefix of it has more steps up than names. */
  lemma {:induction false} StackIff(segs: seq<string>)
    ensures Stack(segs).Some? <==> NeverAbove(segs)
    ensures Stack(segs).Some? ==> |Stack(segs).value| == Depth(segs)
  {
    hide IsNoop, IsUp;
    assert segs[..|segs|] == segs;
    if segs != [] {
      var rest := segs[..|segs| - 1];
      StackIff(rest);
      forall k | 0 <= k <= |rest| ensures rest[..k] == segs[..k] {
      }
      if NeverAbove(rest) && Depth(segs) >= 0 {
        forall k | 0 <= k <= |segs| ensures Depth(segs[..k]) >= 0 {
          if k < |segs| { assert rest[..k] == segs[..k]; }
        }
      }
      if NeverAbove(segs) {
        forall k | 0 <= k <= |rest| ensures Depth(rest[..k]) >= 0 { assert rest[..k] == segs[..k]; }
        assert Depth(segs[..|segs|]) >= 0;
      }
    }
  }

  /** What stays on the stack are names that were walked; none of them is a step up. */
  lemma {:induction false} StackNames(segs: seq<string>)
    ensures match Stack(segs) case None => true
            case Some(stack) => forall seg :: seg in stack ==> seg in segs && !IsNoop(seg) && !IsUp(seg)
  {
    hide IsNoop, IsUp;
    if segs != [] { StackNames(segs[..|segs| - 1]); }
  }

  /** Splitting loses nothing. */
  lemma {:induction false} SplitConcat(s: string)
    ensures Concat(Split(s)) == s
    decreases |s|
  {
    hide FirstSeg;
    if s != "" {
      var seg, rest := FirstSeg(s), s[|FirstSeg(s)|..];
      SplitConcat(rest);
      ConcatAppend([seg], Split(rest));
      assert Concat([seg]) == seg by { assert [seg][..0] == []; }
    }
  }

  lemma {:induction false} ConcatAppend(xs: seq<string>, ys: seq<string>)
    ensures Concat(xs + ys) == Concat(xs) + Concat(ys)
    decreases |ys|
  {
    if ys == [] {
      assert xs + ys == xs;
    } else {
      ConcatAppend(xs, ys[..|ys| - 1]);
      assert (xs + ys)[..|xs + ys| - 1] == xs + ys[..|ys| - 1];
    }
  }

  function Terminated(root: string): string {
    if root != "" && root[|root| - 1] != '/' then root + "/" else root
  }

  /** What merging promises: the slash-terminated root followed by the names that the walk leaves. */
  function Merged(root: string, add: string): Outcome {
    if add != "" && add[0] == '/' then AboveRoot
    else if |root| + |add| + 4 > PATH_MAX then NameTooLong
    else match Stack(Split(add))
      case None => AboveRoot
      case Some(stack) => Path(Terminated(root) + Concat(stack))
  }

  /** A merged path is below its root and fits the buffer with its terminating 0. */
  lemma MergedFits(root: string, add: string)
    ensures Merged(root, add).Path? ==>
              Terminated(root) <= Merged(root, add).path && |Merged(root, add).path| + 1 <= |root| + |add| + 4
  {
    hide Terminated;
    if Stack(Split(add)).Some? {
      StackLength(Split(add));
      SplitConcat(add);
      TerminatedLength(root);
    }
  }

  lemma TerminatedLength(root: string)
    ensures |Terminated(root)| <= |root| + 1
  {
  }

  lemma {:induction false} StackLength(segs: seq<string>)
    requires Stack(segs).Some?
    ensures |Concat(Stack(segs).value)| <= |Concat(segs)|
  {
    hide IsNoop, IsUp;
    if segs != [] {
      var rest, seg := segs[..|segs| - 1], segs[|segs| - 1];
      StackLength(rest);
      var stack := Stack(rest).value;
      assert (stack + [seg])[..|stack|] == stack;
    }
  }

  // ----- the buffer against the stack -----

  /** A name with its closing slash, and no other. */
  predicate Closed(seg: string) {
    && |seg| >= 2 && seg[|seg| - 1] == '/' && !IsNoop(seg) && !IsUp(seg)
    && forall i :: 0 <= i < |seg| - 1 ==> seg[i] != '/'
  }

  predicate EndsAtSlash(s: string) { s == "" || s[|s| - 1] == '/' }

  lemma ConcatEnds(stack: seq<string>)
    requires forall seg :: seg in stack ==> Closed(seg)
    ensures EndsAtSlash(Concat(stack))
  {
    hide IsNoop, IsUp;
    if stack != [] { assert stack[|stack| - 1] in stack; }
  }

  lemma EndsConcat(a: string, b: string)
    requires EndsAtSlash(a) && EndsAtSlash(b)
    ensures EndsAtSlash(a + b)
  {
  }

  lemma ConcatLast(head: string, stack: seq<string>)
    requires stack != []
    ensures head + Concat(stack) == (head + Concat(stack[..|stack| - 1])) + stack[|stack| - 1]
  {
    Associative(head, Concat(stack[..|stack| - 1]), stack[|stack| - 1]);
  }

  /** A path without its last closed segment ends at the slash before it. */
  lemma LastSegment(head: string, stack: seq<string>)
    requires EndsAtSlash(head) && stack != [] && forall seg :: seg in stack ==> Closed(seg)
    ensures var rest := head + Concat(stack[..|stack| - 1]);
            EndsAtSlash(rest) && head + Concat(stack) == rest + stack[|stack| - 1]
  {
    hide Closed, Concat, EndsAtSlash;
    var rest := stack[..|stack| - 1];
    ConcatEnds(rest);
    EndsConcat(head, Concat(rest));
    ConcatLast(head, stack);
  }

  /** Stepping back to the last slash but one removes exactly the last segment. */
  lemma CropRemoves(rest: string, seg: string, n: nat)
    requires EndsAtSlash(rest) && Closed(seg) && n < |rest + seg|
    requires n == 0 || (rest + seg)[n - 1] == '/'
    requires forall i :: n <= i < |rest + seg| - 1 ==> (rest + seg)[i] != '/'
    ensures n == |rest|
  {
    hide IsNoop, IsUp;
    var text := rest + seg;
    assert forall j :: |rest| <= j < |text| - 1 ==> text[j] == seg[j - |rest|];
    assert |rest| > 0 ==> text[|rest| - 1] == '/';
  }

  /** The path ends in a step up, or is empty. */
  predicate Backpathed(text: string) {
    || text == ""
    || text == "../"
    || (|text| > 3 && text[|text| - 4..] == "/../")
  }

  lemma BackpathedLast(text: string)
    ensures Backpathed(text) && |text| > 0 ==>
      |text| >= 3 && text[|text| - 3..] == "../" && (|text| > 3 ==> text[|text| - 4] == '/')
  {
    if |text| > 3 { assert text[|text| - 3..] == text[|text| - 4..][1..]; }
  }

  /** While a name is on the stack the path is neither the root nor backpathed. */
  lemma NotBackpathed(rest: string, seg: string)
    requires EndsAtSlash(rest) && Closed(seg)
    ensures !Backpathed(rest + seg) && rest + seg != "/"
  {
    var text := rest + seg;
    BackpathedLast(text);
    if |seg| == 2 {
      assert rest != "" ==> text[|text| - 3..][0] == '/';
    } else if |seg| == 3 {
      assert text[|text| - 3..] == seg;
    } else {
      assert text[|text| - 4] == seg[|seg| - 4];
    }
  }

  lemma {:induction false} StackNone(xs: seq<string>, ys: seq<string>)
    requires Stack(xs).None?
    ensures Stack(xs + ys).None?
    decreases |ys|
  {
    if ys == [] {
      assert xs + ys == xs;
    } else {
      StackNone(xs, ys[..|ys| - 1]);
      assert (xs + ys)[..|xs + ys| - 1] == xs + ys[..|ys| - 1];
    }
  }

  lemma StackSnoc(xs: seq<string>, seg: string, stack: seq<string>)
    requires Stack(xs) == Some(stack)
    ensures IsNoop(seg) ==> Stack(xs + [seg]) == Some(stack)
    ensures !IsNoop(seg) && !IsUp(seg) ==> Stack(xs + [seg]) == Some(stack + [seg])
    ensures IsUp(seg) && !IsNoop(seg) ==> Stack(xs + [seg]) == if stack == [] then None else Some(stack[..|stack| - 1])
  {
    assert (xs + [seg])[..|xs + [seg]| - 1] == xs;
  }

  lemma SegLenIs(s: string, n: nat)
    requires n <= |s| && (n < |s| ==> s[n] == '/') && forall i :: 0 <= i < n ==> s[i] != '/'
    ensures SegLen(s) == n
  {
  }

  // ----- merging in the buffer -----

  method CopyIn(path: array<char>, at: nat, s: string)
    requires at + |s| <= path.Length
    modifies path
    ensures path[..at + |s|] == old(path[..at]) + s
  {
    var i := 0;
    while i < |s|
      invariant i <= |s| && path[..at] == old(path[..at]) && path[at..at + i] == s[..i]
    {
      path[at + i] := s[i];
      i := i + 1;
    }
    assert path[..at + |s|] == path[..at] + path[at..at + |s|];
  }

  /** The end of the segment that starts at from. */
  method FindSlash(add: string, from: nat) returns (next: nat)
    requires from <= |add|
    ensures from <= next <= |add| && next - from == SegLen(add[from..])
  {
    next := from;
    while next < |add| && add[next] != '/'
      invariant from <= next <= |add| && forall i :: from <= i < next ==> add[i] != '/'
    {
      next := next + 1;
    }
    SegLenIs(add[from..], next - from);
  }

  /** Steps back past the last segment. */
  method Crop(path: array<char>, pathlen: nat) returns (n: nat)
    requires 0 < pathlen <= path.Length
    ensures n < pathlen && (n == 0 || path[n - 1] == '/')
    ensures forall i :: n <= i < pathlen - 1 ==> path[i] != '/'
  {
    n := pathlen - 1;
    while n > 0 && path[n - 1] != '/'
      invariant n < pathlen && forall i :: n <= i < pathlen - 1 ==> path[i] != '/'
    {
      n := n - 1;
    }
  }

  /** The segment from i on, its slash included, and what follows it. */
  lemma SegmentAt(add: string, i: nat, next: nat)
    requires i < |add| && i <= next <= |add| && next - i == SegLen(add[i..])
    ensures var e := if next < |add| then next + 1 else next;
            && FirstSeg(add[i..]) == add[i..e] && Name(add[i..e]) == add[i..next]
            && Split(add[i..]) == [add[i..e]] + Split(add[e..])
            && (next < |add| && add[i..next] != "" && !IsNoop(add[i..e]) && !IsUp(add[i..e]) ==> Closed(add[i..e]))
  {
    hide IsNoop, IsUp, Closed, SegLen;
    var e := if next < |add| then next + 1 else next;
    var s := add[i..];
    assert s[..e - i] == add[i..e] && s[e - i..] == add[e..];
    if next < |add| { ClosedAt(s, next - i, add[i..e]); }
  }

  lemma ClosedAt(s: string, n: nat, seg: string)
    requires n == SegLen(s) < |s| && seg == s[..n + 1]
    ensures Name(seg) == s[..n] && (s[..n] != "" && !IsNoop(seg) && !IsUp(seg) ==> Closed(seg))
  {
    hide IsNoop, IsUp;
    assert seg[n] == '/';
    assert seg[..n] == s[..n];
  }

  /** The buffer holds the slash-terminated root and the names on the stack. */
  ghost predicate Holds(path: seq<char>, pathlen: nat, head: string, stack: seq<string>) {
    pathlen <= |path| && path[..pathlen] == head + Concat(stack)
  }

  /** One step up: crops the last name, or reports that there is none. */
  method StepUp(path: array<char>, pathlen0: nat, keptlen: nat, ghost head: string, ghost stack: seq<string>)
    returns (ok: bool, pathlen: nat)
    requires EndsAtSlash(head) && keptlen == |head| && Holds(path[..], pathlen0, head, stack)
    requires forall seg :: seg in stack ==> Closed(seg)
    ensures ok <==> stack != []
    ensures ok ==> pathlen <= pathlen0 && Holds(path[..], pathlen, head, stack[..|stack| - 1])
  {
    hide Closed;
    ghost var text := path[..pathlen0];
    pathlen := pathlen0;
    if stack != [] {
      LastSegment(head, stack);
      assert stack[|stack| - 1] in stack;
      NotBackpathed(head + Concat(stack[..|stack| - 1]), stack[|stack| - 1]);
    } else {
      assert text == head;
    }
    if pathlen == 1 && path[0] == '/' {
      assert text == "/";
      return false, pathlen;
    }
    if pathlen == 0 || (pathlen == 3 && path[..3] == "../")
       || (pathlen > 3 && path[pathlen - 4..pathlen] == "/../") {
      assert pathlen > 3 ==> text[|text| - 4..] == path[pathlen - 4..pathlen];
      assert Backpathed(text);
      return false, pathlen;
    }
    pathlen := Crop(path, pathlen);
    assert forall i :: 0 <= i < pathlen0 ==> path[i] == text[i];
    if stack != [] {
      CropRemoves(head + Concat(stack[..|stack| - 1]), stack[|stack| - 1], pathlen);
      assert path[..pathlen] == text[..pathlen];
    }
    ok := pathlen >= keptlen;
  }

  /** Copies the root and closes it with a slash. */
  method PutRoot(path: array<char>, root: string) returns (keptlen: nat)
    requires |root| + 1 <= path.Length
    modifies path
    ensures keptlen <= path.Length && path[..keptlen] == Terminated(root)
  {
    keptlen := |root|;
    CopyIn(path, 0, root);
    assert path[..keptlen] == root;
    if keptlen > 0 && path[keptlen - 1] != '/' {
      CopyIn(path, keptlen, "/");
      keptlen := keptlen + 1;
    }
  }

  lemma RootEnds(root: string)
    ensures EndsAtSlash(Terminated(root)) && |Terminated(root)| <= |root| + 1
  {
  }

  lemma StartOf(add: string, head: string)
    ensures [] + Split(add) == Split(add) && head + Concat([]) == head && Stack([]) == Some([]) && Split("") == []
  {
  }

  /** The merge under the secure root test, as it edits its buffer. */
  method Merge(root: string, add: string) returns (r: Outcome)
    ensures r == Merged(root, add)
  {
    hide Closed, IsNoop, IsUp, FirstSeg, Split, Stack, Concat, SegLen, Terminated, Name, EndsAtSlash;
    if add != "" && add[0] == '/' {
      return AboveRoot;
    }
    var maxlen := |root| + |add| + 4;
    if maxlen > PATH_MAX {
      return NameTooLong;
    }
    var path := new char[maxlen];
    var keptlen := PutRoot(path, root);
    ghost var head := Terminated(root);
    RootEnds(root);
    var pathlen: nat, i: nat := keptlen, 0;
    ghost var done: seq<string>, stack: seq<string> := [], [];
    StartOf(add, head);
    assert add[0..] == add;
    while i < |add|
      invariant i <= |add| && pathlen <= keptlen + i && keptlen == |head| <= |root| + 1 && EndsAtSlash(head)
      invariant Holds(path[..], pathlen, head, stack)
      invariant Split(add) == done + Split(add[i..]) && Stack(done) == Some(stack)
      invariant i < |add| ==> forall seg :: seg in stack ==> Closed(seg)
    {
      var next := FindSlash(add, i);
      SegmentAt(add, i, next);
      var e := if next < |add| then next + 1 else next;
      ghost var seg := add[i..e];
      NoopUp(seg);
      StackSnoc(done, seg, stack);
      assert done + Split(add[i..]) == (done + [seg]) + Split(add[e..]);
      if add[i..next] == "" || add[i..next] == "." {
      } else if add[i..next] == ".." {
        var ok, n := StepUp(path, pathlen, keptlen, head, stack);
        if !ok {
          StackNone(done + [seg], Split(add[e..]));
          return AboveRoot;
        }
        pathlen := n;
        stack := stack[..|stack| - 1];
      } else {
        Append(path, pathlen, add[i..e], head, stack);
        pathlen := pathlen + (e - i);
        stack := stack + [seg];
      }
      done := done + [seg];
      i := e;
    }
    assert done + Split("") == done && add[i..] == "";
    path[pathlen] := '\0';
    return Path(path[..pathlen]);
  }

  method Append(path: array<char>, pathlen: nat, seg: string, ghost head: string, ghost stack: seq<string>)
    requires Holds(path[..], pathlen, head, stack) && pathlen + |seg| <= path.Length
    modifies path
    ensures Holds(path[..], pathlen + |seg|, head, stack + [seg])
  {
    hide Concat;
    CopyIn(path, pathlen, seg);
    ConcatSnoc(head, stack, seg);
  }

  lemma NoopUp(seg: string)
    ensures IsNoop(seg) <==> Name(seg) == "" || Name(seg) == "."
    ensures IsUp(seg) <==> Name(seg) == ".."
  {
  }

  lemma ConcatSnoc(head: string, stack: seq<string>, seg: string)
    ensures head + Concat(stack + [seg]) == head + Concat(stack) + seg
  {
    assert (stack + [seg])[..|stack + [seg]| - 1] == stack;
    Associative(head, Concat(stack), seg);
  }

  // ----- paths written out -----

  /** A name of a path: not empty, without a slash, and neither "." nor "..". */
  predicate PlainName(a: string) {
    a != "" && a != "." && a != ".." && forall i :: 0 <= i < |a| ==> a[i] != '/'
  }

  lemma {:induction false} NameLength(a: string, rest: string)
    requires forall i :: 0 <= i < |a| ==> a[i] != '/'
    requires rest == "" || rest[0] == '/'
    ensures SegLen(a + rest) == |a|
  {
    if a == "" {
      assert a + rest == rest;
    } else {
      assert (a + rest)[1..] == a[1..] + rest;
      NameLength(a[1..], rest);
    }
  }

  /** The first segment ends with the first slash. */
  lemma SplitName(a: string, rest: string)
    requires forall i :: 0 <= i < |a| ==> a[i] != '/'
    ensures Split(a + "/" + rest) == [a + "/"] + Split(rest)
    ensures a != "" ==> Split(a) == [a]
  {
    NameLength(a, "/" + rest);
    NameLength(a, "");
    var s := a + "/" + rest;
    assert a + ("/" + rest) == s && a + "" == a;
    assert s[..|a| + 1] == a + "/" && s[|a| + 1..] == rest;
  }

  lemma PlainIsName(a: string)
    requires PlainName(a)
    ensures !IsNoop(a) && !IsUp(a) && !IsNoop(a + "/") && !IsUp(a + "/")
    ensures IsNoop("./") && IsNoop("/") && IsUp("../") && IsUp("..") && !IsNoop("../") && !IsNoop("..")
  {
    assert (a + "/")[..|a|] == a && Name(a + "/") == a;
    assert a[|a| - 1] != '/' && Name(a) == a;
    assert Name("./") == "." && Name("/") == "" && Name("../") == ".." && Name("..") == "..";
  }

  lemma StackOne(seg: string)
    ensures Stack([]) == Some([]) && [] + [seg] == [seg] && Concat([seg]) == seg
  {
    assert [seg][..0] == [];
  }

  /** A name is one segment, a name and a slash one more before the rest, and so are the dots. */
  lemma WrittenSegments(a: string, rest: string)
    requires PlainName(a)
    ensures Split(a) == [a] && Split(a + "/" + rest) == [a + "/"] + Split(rest)
    ensures Split("../" + rest) == ["../"] + Split(rest) && Split("./" + rest) == ["./"] + Split(rest)
    ensures Split("/" + rest) == ["/"] + Split(rest) && Split("..") == [".."]
  {
    hide Split;
    SplitName(a, rest);
    SplitName("..", rest);
    SplitName(".", rest);
    SplitName("", rest);
    assert ".." + "/" == "../" && "." + "/" == "./" && "" + "/" == "/";
  }

  /** The root, closed by a slash unless it is empty or has one. */
  lemma WithStack(root: string, add: string, stack: seq<string>)
    requires Stack(Split(add)) == Some(stack) && (add == "" || add[0] != '/') && |root| + |add| + 4 <= 8192
    ensures Merged(root, add) == Path((if root != "" && root[|root| - 1] != '/' then root + "/" else root) + Concat(stack))
  {
    hide Stack, Split, Concat;
  }

  lemma WithoutStack(root: string, add: string)
    requires Stack(Split(add)) == None && |root| + |add| + 4 <= 8192
    ensures Merged(root, add) == AboveRoot
  {
    hide Stack, Split, Concat;
  }

  /** A name stays below the root, and so it does behind a dot. */
  lemma MergedName(root: string, a: string)
    requires PlainName(a) && |root| + |a| + 6 <= 8192
    ensures var r := Path((if root != "" && root[|root| - 1] != '/' then root + "/" else root) + a);
            Merged(root, a) == r && Merged(root, "./" + a) == r
  {
    hide Stack, Split, Concat, IsNoop, IsUp, Merged;
    PlainIsName(a);
    WrittenSegments(a, a);
    StackOne(a);
    StackOne("./");
    StackSnoc([], a, []);
    StackSnoc([], "./", []);
    StackSnoc(["./"], a, []);
    WithStack(root, a, [a]);
    WithStack(root, "./" + a, [a]);
  }

  /** Two names stay, and an empty name between them is dropped. */
  lemma MergedNames(root: string, a: string, b: string)
    requires PlainName(a) && PlainName(b) && |root| + |a| + |b| + 6 <= 8192
    ensures var r := Path((if root != "" && root[|root| - 1] != '/' then root + "/" else root) + (a + "/" + b));
            Merged(root, a + "/" + b) == r && Merged(root, a + "/" + ("/" + b)) == r
  {
    hide Stack, Split, IsNoop, IsUp, Merged;
    PlainIsName(a);
    PlainIsName(b);
    WrittenSegments(a, b);
    WrittenSegments(a, "/" + b);
    WrittenSegments(b, b);
    StackOne(a + "/");
    var two := [a + "/"] + [b];
    assert two[..1] == [a + "/"] && Concat(two) == Concat([a + "/"]) + b;
    hide Concat;
    StackSnoc([], a + "/", []);
    StackSnoc([a + "/"], b, [a + "/"]);
    StackSnoc([a + "/"], "/", [a + "/"]);
    StackSnoc([a + "/"] + ["/"], b, [a + "/"]);
    Associative([a + "/"], ["/"], [b]);
    WithStack(root, a + "/" + b, two);
    WithStack(root, a + "/" + ("/" + b), two);
  }

  /** A step up takes the name before it away; one more leaves the root, and so does a leading slash. */
  lemma MergedUp(root: string, a: string, b: string)
    requires PlainName(a) && PlainName(b) && |root| + |a| + |b| + 9 <= 8192
    ensures Merged(root, a + "/" + ("../" + b)) ==
              Path((if root != "" && root[|root| - 1] != '/' then root + "/" else root) + b)
    ensures Merged(root, "..") == AboveRoot && Merged(root, a + "/" + ("../" + "..")) == AboveRoot
    ensures Merged(root, "/" + a) == AboveRoot
  {
    hide Stack, Split, Concat, IsNoop, IsUp;
    PlainIsName(a);
    PlainIsName(b);
    WrittenSegments(a, "../" + b);
    WrittenSegments(a, "../" + "..");
    WrittenSegments(b, b);
    WrittenSegments(b, "..");
    StackOne(a + "/");
    StackOne(b);
    StackOne("..");
    StackSnoc([], a + "/", []);
    StackSnoc([a + "/"], "../", [a + "/"]);
    assert [a + "/"][..0] == [];
    StackSnoc([a + "/"] + ["../"], b, []);
    StackSnoc([a + "/"] + ["../"], "..", []);
    StackSnoc([], "..", []);
    Associative([a + "/"], ["../"], [b]);
    Associative([a + "/"], ["../"], [".."]);
    WithStack(root, a + "/" + ("../" + b), [b]);
    WithoutStack(root, a + "/" + ("../" + ".."));
    WithoutStack(root, "..");
  }

  /** Unless the added path begins with a slash, only the lengths decide whether the result is too long. */
  lemma MergedTooLong(root: string, add: string)
    ensures Merged(root, add) == NameTooLong <==> (add == "" || add[0] != '/') && |root| + |add| + 4 > 8192
  {
    hide Stack, Split;
  }
}
