/**
  The asset path normaliser (runtime/stasis_asset_path.h): one cursor over the path writes segments
  to, and pops them from, a bounded output buffer. The reference splits the path at separators and
  folds the segments over a stack.
*/
module AssetPath {
  import opened Options

  predicate Separator(c: char) { c == '/' || c == '\\' }

  // ---------- Segments ----------

  function Flushed(current: string): seq<string> { if current == "" then [] else [current] }

  // The non-empty pieces between separators; `current` is the piece being read.
  function Split(s: string, current: string): seq<string>
    decreases |s|
  {
    if s == "" then Flushed(current)
    else if Separator(s[0]) then Flushed(current) + Split(s[1..], "")
    else Split(s[1..], current + [s[0]])
  }

  function Join(segments: seq<string>): string {
    if segments == [] then ""
    else
      var init, last := segments[..|segments| - 1], segments[|segments| - 1];
      if init == [] then last else Join(init) + "/" + last
  }

  predicate Name(segment: string) {
    && segment != "" && segment != "." && segment != ".."
    && forall k :: 0 <= k < |segment| ==> !Separator(segment[k])
  }

  predicate Names(stack: seq<string>) { forall i :: 0 <= i < |stack| ==> Name(stack[i]) }

  predicate Plain(segment: string) { forall k :: 0 <= k < |segment| ==> !Separator(segment[k]) }

  // ---------- The stack ----------

  function Popped(stack: seq<string>): seq<string> { if stack == [] then [] else stack[..|stack| - 1] }

  // Dot is skipped, dot-dot pops and stays at the root, anything else is pushed.
  function Resolve(segments: seq<string>, stack: seq<string>): seq<string>
    decreases |segments|
  {
    if segments == [] then stack
    else if segments[0] == "." then Resolve(segments[1..], stack)
    else if segments[0] == ".." then Resolve(segments[1..], Popped(stack))
    else Resolve(segments[1..], stack + [segments[0]])
  }

  // The same with a buffer: a push that leaves no room for the terminator gives up.
  function Walk(segments: seq<string>, stack: seq<string>, size: nat): Option<seq<string>>
    decreases |segments|
  {
    if segments == [] then Some(stack)
    else if segments[0] == "." then Walk(segments[1..], stack, size)
    else if segments[0] == ".." then Walk(segments[1..], Popped(stack), size)
    else if |Join(stack + [segments[0]])| + 1 > size then None
    else Walk(segments[1..], stack + [segments[0]], size)
  }

  lemma {:induction false} WalkResolves(segments: seq<string>, stack: seq<string>, size: nat)
    ensures Walk(segments, stack, size).Some? ==> Walk(segments, stack, size).value == Resolve(segments, stack)
    decreases |segments|
  {
    if segments != [] {
      var next := if segments[0] == "." then stack else if segments[0] == ".." then Popped(stack)
        else stack + [segments[0]];
      WalkResolves(segments[1..], next, size);
    }
  }

  // Bytes of the segments with one separator each.
  function Weight(segments: seq<string>): nat {
    if segments == [] then 0 else Weight(segments[..|segments| - 1]) + |segments[|segments| - 1]| + 1
  }

  lemma {:induction false} JoinLength(stack: seq<string>)
    ensures stack != [] ==> |Join(stack)| + 1 == Weight(stack)
  {
    if stack != [] { JoinLength(stack[..|stack| - 1]); }
  }

  lemma {:induction false} WeightCons(segments: seq<string>)
    requires segments != []
    ensures Weight(segments) == |segments[0]| + 1 + Weight(segments[1..])
  {
    if |segments| > 1 {
      var init := segments[..|segments| - 1];
      WeightCons(init);
      assert init[1..] == segments[1..][..|segments| - 2];
    }
  }

  lemma {:induction false} SplitWeight(s: string, current: string)
    ensures Weight(Split(s, current)) <= |s| + |current| + 1
    ensures current == "" ==> Weight(Split(s, current)) <= |s| + 1
    decreases |s|
  {
    if s != "" {
      if Separator(s[0]) {
        SplitWeight(s[1..], "");
        if current != "" {
          WeightCons([current] + Split(s[1..], ""));
          assert ([current] + Split(s[1..], ""))[1..] == Split(s[1..], "");
        } else {
          assert Split(s, current) == Split(s[1..], "");
        }
      } else {
        SplitWeight(s[1..], current + [s[0]]);
      }
    }
  }

  lemma {:induction false} RoomForAll(segments: seq<string>, stack: seq<string>, size: nat)
    requires Weight(stack) + Weight(segments) <= size
    ensures Walk(segments, stack, size).Some?
    decreases |segments|
  {
    if segments != [] {
      WeightCons(segments);
      if segments[0] == ".." {
        RoomForAll(segments[1..], Popped(stack), size);
      } else if segments[0] == "." {
        RoomForAll(segments[1..], stack, size);
      } else {
        var pushed := stack + [segments[0]];
        assert pushed[..|stack|] == stack;
        JoinLength(pushed);
        RoomForAll(segments[1..], pushed, size);
      }
    }
  }

  /** A buffer one longer than the path never refuses for size. */
  lemma LongBufferSuffices(path: string, size: nat)
    requires size >= |path| + 1
    ensures Walk(Split(path, ""), [], size) == Some(Resolve(Split(path, ""), []))
  {
    SplitWeight(path, "");
    RoomForAll(Split(path, ""), [], size);
    WalkResolves(Split(path, ""), [], size);
  }

  lemma {:induction false} SplitPlain(s: string, current: string)
    requires Plain(current)
    ensures forall i :: 0 <= i < |Split(s, current)| ==> Split(s, current)[i] != "" && Plain(Split(s, current)[i])
    decreases |s|
  {
    if s != "" {
      if Separator(s[0]) { SplitPlain(s[1..], ""); } else { SplitPlain(s[1..], current + [s[0]]); }
    }
  }

  lemma {:induction false} ResolveNames(segments: seq<string>, stack: seq<string>)
    requires Names(stack)
    requires forall i :: 0 <= i < |segments| ==> segments[i] != "" && Plain(segments[i])
    ensures Names(Resolve(segments, stack))
    decreases |segments|
  {
    if segments != [] {
      var next := if segments[0] == "." then stack else if segments[0] == ".." then Popped(stack)
        else stack + [segments[0]];
      ResolveNames(segments[1..], next);
    }
  }

  /** What is left has no empty, dot or dot-dot segment and no separator inside one. */
  lemma OutputIsClean(path: string)
    ensures Names(Resolve(Split(path, ""), []))
  {
    SplitPlain(path, "");
    ResolveNames(Split(path, ""), []);
  }

  // ---------- What dots mean ----------

  lemma {:induction false} ResolveJoins(a: seq<string>, b: seq<string>, stack: seq<string>)
    ensures Resolve(a + b, stack) == Resolve(b, Resolve(a, stack))
    decreases |a|
  {
    if a == [] {
      assert a + b == b;
    } else {
      assert (a + b)[1..] == a[1..] + b;
      var next := if a[0] == "." then stack else if a[0] == ".." then Popped(stack) else stack + [a[0]];
      ResolveJoins(a[1..], b, next);
    }
  }

  /** A dot means nothing, a dot-dot takes back the name before it, and one with nothing before it
      means nothing. With CleanIsFixed these laws determine what every path resolves to. */
  lemma DotLaws(a: seq<string>, name: string, b: seq<string>)
    requires Name(name)
    ensures Resolve(a + ["."] + b, []) == Resolve(a + b, [])
    ensures Resolve(a + [name, ".."] + b, []) == Resolve(a + b, [])
    ensures Resolve([".."] + b, []) == Resolve(b, [])
  {
    var stack := Resolve(a, []);
    ResolveJoins(a, b, []);
    assert a + ["."] + b == a + (["."] + b) && a + [name, ".."] + b == a + ([name, ".."] + b);
    ResolveJoins(a, ["."] + b, []);
    ResolveJoins(a, [name, ".."] + b, []);
    assert (["."] + b)[1..] == b && ([name, ".."] + b)[1..] == [".."] + b && ([".."] + b)[1..] == b;
    assert Popped(stack + [name]) == stack;
  }

  /** Runs of slashes and backslashes only separate. */
  lemma SeparatorLaws(piece: string, c: char, rest: string)
    requires Plain(piece) && Separator(c)
    ensures Split(piece + ([c] + rest), "") == Flushed(piece) + Split(rest, "")
    ensures Split(piece, "") == Flushed(piece)
  {
    SplitOnePiece(piece, [c] + rest, "");
    SplitOnePiece(piece, "", "");
    assert ([c] + rest)[1..] == rest && "" + piece == piece && piece + "" == piece;
  }

  // ---------- Reading the output back ----------

  lemma {:induction false} SplitOnePiece(piece: string, rest: string, current: string)
    requires Plain(piece) && (rest == "" || Separator(rest[0]))
    ensures Split(piece + rest, current) == Flushed(current + piece) + (if rest == "" then [] else Split(rest[1..], ""))
    decreases |piece|
  {
    if piece == "" {
      assert piece + rest == rest && current + piece == current;
    } else {
      assert (piece + rest)[1..] == piece[1..] + rest;
      assert current + [piece[0]] + piece[1..] == current + piece;
      SplitOnePiece(piece[1..], rest, current + [piece[0]]);
    }
  }

  lemma {:induction false} JoinCons(stack: seq<string>)
    requires |stack| > 1
    ensures Join(stack) == stack[0] + ("/" + Join(stack[1..]))
  {
    if |stack| > 2 {
      var init := stack[..|stack| - 1];
      JoinCons(init);
      assert init[1..] == stack[1..][..|stack| - 2];
    }
  }

  // Splitting the output gives its segments back.
  lemma {:induction false} OutputReadsBack(stack: seq<string>)
    requires Names(stack)
    ensures Split(Join(stack), "") == stack
    decreases |stack|
  {
    if |stack| == 1 {
      SplitOnePiece(stack[0], "", "");
      assert stack[0] + "" == stack[0] && "" + stack[0] == stack[0];
    } else if |stack| > 1 {
      JoinCons(stack);
      SplitOnePiece(stack[0], "/" + Join(stack[1..]), "");
      assert ("/" + Join(stack[1..]))[1..] == Join(stack[1..]) && "" + stack[0] == stack[0];
      OutputReadsBack(stack[1..]);
      assert stack == [stack[0]] + stack[1..];
    }
  }

  lemma {:induction false} CleanIsFixed(rest: seq<string>, stack: seq<string>)
    requires Names(rest)
    ensures Resolve(rest, stack) == stack + rest
    decreases |rest|
  {
    if rest != [] {
      CleanIsFixed(rest[1..], stack + [rest[0]]);
      assert stack + [rest[0]] + rest[1..] == stack + rest;
    }
  }

  /** Splitting and resolving the output of any path gives the same segments again. */
  lemma OutputIsStable(path: string)
    ensures var stack := Resolve(Split(path, ""), []);
            Resolve(Split(Join(stack), ""), []) == stack
  {
    var stack := Resolve(Split(path, ""), []);
    OutputIsClean(path);
    OutputReadsBack(stack);
    CleanIsFixed(stack, []);
    assert [] + stack == stack;
  }

  // ---------- The guards ----------

  predicate StartsWith(s: string, prefix: string) { |s| >= |prefix| && s[..|prefix|] == prefix }

  predicate Rooted(path: string) { path == "/assets" || StartsWith(path, "/assets/") }

  predicate Letter(c: char) { 'A' <= c <= 'Z' || 'a' <= c <= 'z' }

  // No other absolute path, drive or URL.
  predicate Accepted(path: string) {
    && (path != "" && path[0] == '/' ==> Rooted(path))
    && (path != "" ==> path[0] != '\\')
    && !LooksLikeDrive(path)
    && !(exists i :: 0 <= i < |path| && StartsWith(path[i..], "://"))
  }

  // No separator stands at either end of the output or beside another one.
  lemma {:induction false} SingleSeparators(stack: seq<string>)
    requires Names(stack) && stack != []
    ensures var s := Join(stack);
            && s != "" && s[0] == stack[0][0] && s[|s| - 1] != '/'
            && forall i :: 0 < i < |s| ==> !(s[i - 1] == '/' && s[i] == '/')
  {
    if |stack| > 1 {
      var init, last := stack[..|stack| - 1], stack[|stack| - 1];
      SingleSeparators(init);
      var head, s := Join(init), Join(stack);
      assert s == head + "/" + last;
      forall i | 0 < i < |s| ensures !(s[i - 1] == '/' && s[i] == '/') {
        if i < |head| {
          assert s[i - 1] == head[i - 1] && s[i] == head[i];
        } else if i > |head| {
          assert s[i] == last[i - |head| - 1];
        } else {
          assert s[i - 1] == head[|head| - 1];
        }
      }
    }
  }

  predicate LooksLikeDrive(s: string) { |s| >= 2 && Letter(s[0]) && s[1] == ':' }

  /** The output passes the guards again exactly when its first segment does not look like a drive. */
  lemma OutputAcceptedIff(stack: seq<string>)
    requires Names(stack) && stack != []
    ensures Accepted(Join(stack)) <==> !LooksLikeDrive(stack[0])
  {
    var s := Join(stack);
    SingleSeparators(stack);
    forall i | 0 <= i < |s| ensures !StartsWith(s[i..], "://") {
      SchemeHasTwo(s, i);
    }
    if |stack| > 1 {
      JoinCons(stack);
      SecondCharacter(stack[0], "/" + Join(stack[1..]));
    }
  }

  lemma SchemeHasTwo(s: string, i: nat)
    requires i < |s|
    ensures StartsWith(s[i..], "://") ==> i + 2 < |s| && s[i + 1] == '/' && s[i + 2] == '/'
  {
    if StartsWith(s[i..], "://") {
      assert s[i + 1] == s[i..][..3][1] == '/' && s[i + 2] == s[i..][..3][2] == '/';
    }
  }

  lemma SecondCharacter(first: string, rest: string)
    requires first != "" && rest != "" && rest[0] == '/'
    ensures |first + rest| >= 2 && (first + rest)[0] == first[0]
    ensures (first + rest)[1] == ':' <==> |first| >= 2 && first[1] == ':'
  {}

  lemma SplitCons(piece: string, rest: string)
    requires Plain(piece) && piece != ""
    ensures Split(piece + ("/" + rest), "") == [piece] + Split(rest, "")
  {
    SplitOnePiece(piece, "/" + rest, "");
    assert ("/" + rest)[1..] == rest && "" + piece == piece;
  }

  lemma DottedDriveSplits()
    ensures Split("./C:/x", "") == [".", "C:", "x"]
  {
    hide Split;
    OutputReadsBack(["C:", "x"]);
    JoinCons(["C:", "x"]);
    assert ["C:", "x"][1..] == ["x"] && Join(["x"]) == "x";
    assert "./C:/x" == "." + ("/" + ("C:" + ("/" + "x")));
    SplitCons(".", "C:" + ("/" + "x"));
  }

  /** A path that normalises to one the guards refuse. */
  lemma DriveAfterDot()
    ensures Accepted("./C:/x") && Resolve(Split("./C:/x", ""), []) == ["C:", "x"]
    ensures Names(["C:", "x"]) && !Accepted(Join(["C:", "x"]))
  {
    hide Split;
    OutputAcceptedIff(["C:", "x"]);
    forall i | 0 <= i < 6 ensures !StartsWith("./C:/x"[i..], "://") { SchemeHasTwo("./C:/x", i); }
    DottedDriveSplits();
    assert [".", "C:", "x"][1..] == ["C:", "x"];
    CleanIsFixed(["C:", "x"], []);
  }

  // The test on the joined output looks at its first segment.
  lemma RootedOutput(stack: seq<string>)
    requires Names(stack) && stack != []
    ensures Join(stack) == "assets" || StartsWith(Join(stack), "assets/") <==> stack[0] == "assets"
  {
    if |stack| > 1 {
      JoinCons(stack);
      FirstOfJoin(stack[0], "/" + Join(stack[1..]));
    } else {
      FirstOfJoin(stack[0], "");
      assert stack[0] + "" == stack[0];
    }
  }

  lemma FirstOfJoin(first: string, rest: string)
    requires Plain(first) && (rest == "" || rest[0] == '/')
    ensures first + rest == "assets" || StartsWith(first + rest, "assets/") <==> first == "assets"
  {
    var s, root := first + rest, "assets/";
    assert root[6] == '/' && forall k :: 0 <= k < 6 ==> root[k] != '/';
    if first == "assets" && rest != "" { assert s[..7] == root; }
    if StartsWith(s, root) {
      assert forall k :: 0 <= k < 7 ==> s[k] == root[k];
      assert s[6] == '/';
      assert |first| <= 6;
      AfterFirst(first, rest);
      assert |first| == 6 && first == s[..6] == root[..6];
    } else if s == "assets" {
      AfterFirst(first, rest);
      assert forall k :: 0 <= k < |s| ==> s[k] != '/';
      assert first == s;
    }
  }

  lemma AfterFirst(first: string, rest: string)
    ensures rest != "" ==> (first + rest)[|first|] == rest[0]
  {}

  // ---------- The cursor ----------

  // What is still to be walked from the cursor.
  predicate Pending(path: string, cursor: nat, stack: seq<string>, size: nat)
    requires cursor <= |path|
  {
    Walk(Split(path, ""), [], size) == Walk(Split(path[cursor..], ""), stack, size)
  }

  lemma SkipSeparator(path: string, cursor: nat)
    requires cursor < |path| && Separator(path[cursor])
    ensures Split(path[cursor..], "") == Split(path[cursor + 1..], "")
  {
    assert path[cursor..][1..] == path[cursor + 1..];
  }

  lemma ReadCharacter(path: string, segment: nat, cursor: nat)
    requires segment <= cursor < |path| && !Separator(path[cursor])
    ensures Split(path[cursor..], path[segment..cursor]) == Split(path[cursor + 1..], path[segment..cursor + 1])
  {
    assert path[cursor..][1..] == path[cursor + 1..];
    assert path[segment..cursor] + [path[cursor]] == path[segment..cursor + 1];
  }

  lemma EndSegment(path: string, segment: nat, cursor: nat)
    requires segment < cursor <= |path| && (cursor == |path| || Separator(path[cursor]))
    ensures Split(path[cursor..], path[segment..cursor]) == [path[segment..cursor]] + Split(path[cursor..], "")
  {
    if cursor < |path| { assert path[cursor..][1..] == path[cursor + 1..]; }
  }

  method NextSegment(path: string, from: nat) returns (segment: nat, cursor: nat)
    requires from < |path|
    ensures from <= segment <= cursor <= |path|
    ensures segment == cursor ==> cursor == |path| && Split(path[from..], "") == []
    ensures segment < cursor ==>
              Split(path[from..], "") == [path[segment..cursor]] + Split(path[cursor..], "") &&
                Plain(path[segment..cursor])
  {
    hide Split;
    cursor := from;
    while cursor < |path| && Separator(path[cursor])
      invariant from <= cursor <= |path| && Split(path[from..], "") == Split(path[cursor..], "")
    {
      SkipSeparator(path, cursor);
      cursor := cursor + 1;
    }
    segment := cursor;
    if cursor == |path| { NothingLeft(path); return; }
    assert path[segment..segment] == "";
    while cursor < |path| && !Separator(path[cursor])
      invariant segment <= cursor <= |path|
      invariant cursor > segment || (cursor < |path| && !Separator(path[cursor]))
      invariant Split(path[from..], "") == Split(path[cursor..], path[segment..cursor])
      invariant forall k :: segment <= k < cursor ==> !Separator(path[k])
    {
      ReadCharacter(path, segment, cursor);
      cursor := cursor + 1;
    }
    EndSegment(path, segment, cursor);
  }

  lemma NothingLeft(path: string)
    ensures Split(path[|path|..], "") == []
  {}

  // Drops the last segment from the buffer.
  method PopSegment(out: array<char>, used: nat, ghost stack: seq<string>) returns (left: nat)
    requires Names(stack) && used == |Join(stack)| <= out.Length && out[..used] == Join(stack)
    ensures left == |Join(Popped(stack))| <= used && out[..left] == Join(Popped(stack))
  {
    left := used;
    ghost var floor := if |stack| < 2 then 0 else |Join(Popped(stack))| + 1;
    LastSegment(stack);
    while left > 0 && out[left - 1] != '/'
      invariant floor <= left <= used
    {
      assert out[left - 1] == out[..used][left - 1];
      left := left - 1;
    }
    assert left > 0 ==> out[left - 1] == out[..used][left - 1];
    assert left == floor;
    if left > 0 { left := left - 1; }
    assert out[..left] == out[..used][..left];
  }

  lemma LastSegment(stack: seq<string>)
    requires Names(stack)
    ensures var floor := if |stack| < 2 then 0 else |Join(Popped(stack))| + 1;
            && floor <= |Join(stack)|
            && (forall k :: floor <= k < |Join(stack)| ==> Join(stack)[k] != '/')
            && (floor > 0 ==> Join(stack)[floor - 1] == '/' && Join(stack)[..floor - 1] == Join(Popped(stack)))
            && (floor == 0 ==> Join(Popped(stack)) == "")
  {
    if |stack| >= 2 {
      var head, last := Join(Popped(stack)), stack[|stack| - 1];
      assert Join(stack) == head + "/" + last;
      assert forall k :: 0 <= k < |last| ==> Join(stack)[|head| + 1 + k] == last[k];
    }
  }

  // Appends a segment, with a separator unless it is the first.
  method PushSegment(out: array<char>, used: nat, segment: string, ghost stack: seq<string>)
    returns (ok: bool, now: nat)
    requires Names(stack) && Name(segment) && used == |Join(stack)| <= out.Length && out[..used] == Join(stack)
    modifies out
    ensures ok <==> |Join(stack + [segment])| + 1 <= out.Length
    ensures ok ==> now == |Join(stack + [segment])| && out[..now] == Join(stack + [segment])
  {
    PushJoins(stack, segment);
    now := used;
    var separator := if used > 0 then 1 else 0;
    ok := used + separator + |segment| + 1 <= out.Length;
    if !ok { return; }
    ghost var before := out[..used];
    if separator != 0 {
      out[now] := '/';
      now := now + 1;
      assert out[..now] == before + "/";
    }
    ghost var head := out[..now];
    for k := 0 to |segment|
      invariant out[..now] == head && out[now..now + k] == segment[..k]
    {
      out[now + k] := segment[k];
    }
    assert out[..now + |segment|] == out[..now] + out[now..now + |segment|];
    now := now + |segment|;
  }

  lemma PushJoins(stack: seq<string>, segment: string)
    requires Names(stack)
    ensures Join(stack) == "" <==> stack == []
    ensures Join(stack + [segment]) == if stack == [] then segment else Join(stack) + "/" + segment
  {
    assert (stack + [segment])[..|stack|] == stack;
    JoinLength(stack);
    if stack != [] { assert |Join(stack)| > 0; }
  }

  /** Whether, and to what, a path normalises in a buffer of the given size. */
  function Normal(path: string, size: nat): Option<seq<string>> {
    var walked := Walk(Split(path, ""), [], size);
    if size < 2 || !Accepted(path) || walked.None? || walked.value == [] then None
    else if Rooted(path) && walked.value[0] != "assets" then None
    else walked
  }

  // An absolute path other than one under the virtual root, a drive, or a URL.
  ghost predicate Foreign(path: string) {
    || (exists rest :: path == "/" + rest && path != "/assets" && forall r :: path != "/assets/" + r)
    || (exists rest :: path == "\\" + rest)
    || (exists c: char, rest :: ('A' <= c <= 'Z' || 'a' <= c <= 'z') && path == [c] + ":" + rest)
    || (exists a, b :: path == a + "://" + b)
  }

  lemma PrefixIff(s: string, prefix: string)
    ensures StartsWith(s, prefix) <==> exists rest :: s == prefix + rest
  {
    if StartsWith(s, prefix) { assert s == prefix + s[|prefix|..]; }
  }

  lemma UrlIff(path: string)
    ensures (exists i :: 0 <= i < |path| && StartsWith(path[i..], "://")) <==> exists a, b :: path == a + "://" + b
  {
    if i :| 0 <= i < |path| && StartsWith(path[i..], "://") {
      PrefixIff(path[i..], "://");
      var b :| path[i..] == "://" + b;
      assert path == path[..i] + "://" + b;
    }
    if a, b :| path == a + "://" + b {
      assert path[|a|..][..3] == "://";
      assert StartsWith(path[|a|..], "://");
    }
  }

  lemma DriveIff(path: string)
    ensures LooksLikeDrive(path) <==>
            exists c: char, rest :: ('A' <= c <= 'Z' || 'a' <= c <= 'z') && path == [c] + ":" + rest
  {
    if LooksLikeDrive(path) { assert path == [path[0]] + ":" + path[2..]; }
  }

  lemma AcceptedIff(path: string)
    ensures Accepted(path) <==> !Foreign(path)
    ensures Rooted(path) <==> path == "/assets" || exists r :: path == "/assets/" + r
  {
    UrlIff(path);
    DriveIff(path);
    PrefixIff(path, "/assets/");
    PrefixIff(path, "/");
    PrefixIff(path, "\\");
    assert path != "" ==> path[..1] == [path[0]];
  }

  /** What is refused in a buffer large enough: a foreign path, one that leads back to where it
      started, and one under the virtual root that leads out of it. */
  lemma RefusedIff(path: string, size: nat)
    requires size > |path| && size >= 2
    ensures var stack := Resolve(Split(path, ""), []);
            Normal(path, size).None? <==>
            || Foreign(path) || stack == []
            || ((path == "/assets" || exists r :: path == "/assets/" + r) && stack[0] != "assets")
  {
    hide Walk, Split, Resolve, Accepted, Rooted, Foreign;
    AcceptedIff(path);
    LongBufferSuffices(path, size);
    WalkResolves(Split(path, ""), [], size);
  }

  /** stasis_asset_normalize_relative_path. */
  method Normalize(path: string, out: array<char>) returns (ok: bool, used: nat)
    modifies out
    ensures ok <==> Normal(path, out.Length).Some?
    ensures ok ==> used < out.Length && out[..used] == Join(Normal(path, out.Length).value) && out[used] == '\0'
  {
    hide Walk, Split, Join, Accepted, Rooted;
    ok, used := false, 0;
    if out.Length < 2 || !Accepted(path) { return; }
    var rooted := Rooted(path);
    var cursor := 0;
    ghost var stack: seq<string> := [];
    Start(path, out.Length);
    if rooted { cursor := 1; }
    while cursor < |path|
      invariant cursor <= |path| && Pending(path, cursor, stack, out.Length)
      invariant Names(stack) && used == |Join(stack)| < out.Length && out[..used] == Join(stack)
      decreases |path| - cursor
    {
      ghost var from := cursor;
      var segment;
      segment, cursor := NextSegment(path, cursor);
      if segment == cursor { NothingLeft(path); break; }
      var text := path[segment..cursor];
      WalkOne(path, from, text, cursor, stack, out.Length);
      if text == "." { continue; }
      if text == ".." {
        used := PopSegment(out, used, stack);
        stack := Popped(stack);
        continue;
      }
      var fits;
      fits, used := PushSegment(out, used, text, stack);
      if !fits { return false, used; }
      stack := stack + [text];
    }
    Finished(path, stack, out.Length);
    PushJoins(stack, "");
    if used == 0 { return; }
    RootedOutput(stack);
    out[used] := '\0';
    assert out[..used] == Join(stack);
    if rooted && out[..used] != "assets" && !StartsWith(out[..used], "assets/") { return; }
    ok := true;
  }

  lemma Start(path: string, size: nat)
    ensures Pending(path, 0, [], size) && Join([]) == ""
    ensures Rooted(path) ==> |path| > 0 && Pending(path, 1, [], size)
  {
    assert path[0..] == path;
    if Rooted(path) { SkipSeparator(path, 0); }
  }

  lemma WalkOne(path: string, from: nat, text: string, cursor: nat, stack: seq<string>, size: nat)
    requires from <= |path| && cursor <= |path| && Pending(path, from, stack, size)
    requires Split(path[from..], "") == [text] + Split(path[cursor..], "")
    ensures text == "." ==> Pending(path, cursor, stack, size)
    ensures text == ".." ==> Pending(path, cursor, Popped(stack), size)
    ensures text != "." && text != ".." ==>
              if |Join(stack + [text])| + 1 > size then Walk(Split(path, ""), [], size) == None
              else Pending(path, cursor, stack + [text], size)
  {
    hide Split, Join;
    assert ([text] + Split(path[cursor..], ""))[1..] == Split(path[cursor..], "");
  }

  lemma Finished(path: string, stack: seq<string>, size: nat)
    requires Pending(path, |path|, stack, size)
    ensures Walk(Split(path, ""), [], size) == Some(stack)
  {
    NothingLeft(path);
  }
}
