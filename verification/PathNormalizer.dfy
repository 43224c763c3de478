/** The in-place path normaliser of __darwintrace_is_in_sandbox, for absolute paths.

    The components kept so far lie one after the other in a buffer, each with a terminator, behind a
    leading slash; descriptors say where each starts and how long it is. */
module PathNormalizer {

  import opened CStrings
  import opened Sequences
  import opened Wrappers
  import opened Sandbox
  import FilemapPublication

  const MAXPATHLEN: nat := 1024

  // ---------------------------------------------------------------- lexical resolution

  /** The components the loop sees: it stops at the first empty one. */
  function Tokens(s: string): seq<string>
    decreases |s|
  {
    var n := SpanToSlash(s);
    if n == 0 then [] else if n == |s| then [s] else [s[..n]] + Tokens(s[n + 1..])
  }

  predicate IsDots(c: string) { c == "." || c == ".." }

  /** One component of a path: "." stays, ".." goes up (but not above the root), others go down. */
  function Enter(stack: seq<string>, c: string): seq<string> {
    if c == "." then stack
    else if c == ".." then (if stack == [] then [] else stack[..|stack| - 1])
    else stack + [c]
  }

  /** The lexical resolution of a list of components. */
  function Resolve(tokens: seq<string>): seq<string> {
    if tokens == [] then [] else Enter(Resolve(tokens[..|tokens| - 1]), tokens[|tokens| - 1])
  }

  /** The last component entered from the root: the one the start of the buffer still shows when
      everything was left again. */
  function LastAtRoot(tokens: seq<string>): string {
    if tokens == [] then ""
    else
      var init, c := tokens[..|tokens| - 1], tokens[|tokens| - 1];
      if !IsDots(c) && Resolve(init) == [] then c else LastAtRoot(init)
  }

  const FORK := ["..namedfork", "rsrc"]

  /** A resource fork suffix is dropped. */
  function StripFork(stack: seq<string>): seq<string> {
    if |stack| >= 2 && stack[|stack| - 2..] == FORK then stack[..|stack| - 2] else stack
  }

  /** What the loop leaves in the buffer. */
  function Normalized(tokens: seq<string>): string {
    var stack := StripFork(Resolve(tokens));
    if stack != [] then Join(stack) else "/" + LastAtRoot(tokens)
  }

  // ---------------------------------------------------------------- the buffer

  /** The bytes of the kept components, each with its terminator. */
  function Flat(stack: seq<string>): string {
    if stack == [] then "" else Flat(stack[..|stack| - 1]) + stack[|stack| - 1] + [NUL]
  }

  /** Where component i starts in the buffer. */
  function Offset(stack: seq<string>, i: nat): nat
    requires i <= |stack|
  {
    if i == 0 then 1 else Offset(stack, i - 1) + |stack[i - 1]| + 1
  }

  lemma {:induction false} FlatLength(stack: seq<string>)
    ensures 1 + |Flat(stack)| == Offset(stack, |stack|)
  {
    if stack != [] {
      FlatLength(stack[..|stack| - 1]);
      OffsetOfPrefix(stack, |stack| - 1, |stack| - 1);
    }
  }

  lemma {:induction false} OffsetOfPrefix(stack: seq<string>, n: nat, i: nat)
    requires i <= n <= |stack|
    ensures Offset(stack[..n], i) == Offset(stack, i)
  {
    if i > 0 {
      OffsetOfPrefix(stack, n, i - 1);
    }
  }

  lemma {:induction false} OffsetGrows(stack: seq<string>, i: nat, j: nat)
    requires i <= j <= |stack| && forall c :: c in stack ==> c != ""
    ensures Offset(stack, i) + 2 * (j - i) <= Offset(stack, j)
  {
    if i < j {
      OffsetGrows(stack, i, j - 1);
      assert stack[j - 1] in stack;
    }
  }

  predicate AreKept(stack: seq<string>) { forall c :: c in stack ==> IsName(c) && !IsDots(c) }

  lemma BytesCut(b: string, d: nat, stack: seq<string>)
    requires stack != [] && d == Offset(stack, |stack|) <= |b| && b[1..d] == Flat(stack)
    ensures var n := |stack| - 1; 1 <= Offset(stack, n) <= d && b[1..Offset(stack, n)] == Flat(stack[..n])
    ensures |stack| == 1 ==> |stack[0]| + 2 <= |b| && b[1..|stack[0]| + 2] == stack[0] + [NUL]
  {
    var n := |stack| - 1;
    FlatLength(stack[..n]);
    OffsetOfPrefix(stack, n, n);
    var e := Offset(stack, n);
    assert b[1..e] == b[1..d][..e - 1] == Flat(stack[..n]);
    if n == 0 {
      assert Flat(stack[..0]) == "" && Flat(stack) == stack[0] + [NUL];
    }
  }

  lemma BytesAppended(b: string, b': string, d: nat, c: string, stack: seq<string>)
    requires |b| == |b'| && 1 <= d && d + |c| + 1 <= |b| && b[1..d] == Flat(stack)
    requires b'[..d] == b[..d] && b'[d..d + |c| + 1] == c + [NUL]
    ensures b'[0] == b[0] && b'[1..d + |c| + 1] == Flat(stack + [c])
  {
    assert b'[0] == b'[..d][0] && b[0] == b[..d][0];
    assert b'[1..d] == b'[..d][1..] == b[..d][1..] == b[1..d];
    assert b'[1..d + |c| + 1] == b'[1..d] + b'[d..d + |c| + 1];
    assert (stack + [c])[..|stack|] == stack;
    assert Flat(stack) + (c + [NUL]) == Flat(stack) + c + [NUL];
  }

  /** path_component_t: where a component starts in the buffer, and its length. */
  datatype Component = Component(start: nat, len: nat)

  /** Component i of `stack` is where descriptor i says. */
  predicate Describes(descriptors: seq<Component>, stack: seq<string>) {
    |stack| <= |descriptors| &&
    forall i {:trigger descriptors[i]} :: 0 <= i < |stack| ==> descriptors[i] == Component(Offset(stack, i), |stack[i]|)
  }

  lemma DescribesLess(descriptors: seq<Component>, stack: seq<string>, n: nat)
    requires Describes(descriptors, stack) && n <= |stack|
    ensures Describes(descriptors, stack[..n]) && Offset(stack[..n], n) == Offset(stack, n)
  {
    forall i {:trigger descriptors[i]} | 0 <= i < n ensures descriptors[i] == Component(Offset(stack[..n], i), |stack[..n][i]|) {
      OffsetOfPrefix(stack, n, i);
    }
    OffsetOfPrefix(stack, n, n);
  }

  lemma DescribesMore(descriptors: seq<Component>, stack: seq<string>, c: string)
    requires Describes(descriptors, stack) && |stack| < |descriptors|
    ensures Describes(descriptors[|stack| := Component(Offset(stack, |stack|), |c|)], stack + [c])
    ensures Offset(stack + [c], |stack| + 1) == Offset(stack, |stack|) + |c| + 1
  {
    var to := stack + [c];
    assert to[..|stack|] == stack;
    forall i | 0 <= i <= |stack| ensures Offset(to, i) == Offset(stack, i) {
      OffsetOfPrefix(to, |stack|, i);
    }
  }

  /** The locals normPath, pathComponents, numComponents and dst of __darwintrace_is_in_sandbox. */
  class PathBuffer {
    const normPath: array<char>
    const pathComponents: array<Component>
    var numComponents: nat
    var dst: nat

    /** The buffer holds the components of `stack`, one after the other; `bottom` is what its start
        shows when there are none. */
    ghost predicate Holds(stack: seq<string>, bottom: string)
      reads this, normPath, pathComponents
    {
      && normPath.Length == MAXPATHLEN && pathComponents.Length == MAXPATHLEN / 2 + 2
      && numComponents == |stack| && Describes(pathComponents[..], stack)
      && dst == Offset(stack, |stack|) <= MAXPATHLEN
      && normPath[0] == '/' && dst >= 1 && normPath[1..dst] == Flat(stack)
      && (stack != [] ==> bottom == stack[0])
      && (stack == [] ==> |bottom| + 2 <= MAXPATHLEN && normPath[1..|bottom| + 2] == bottom + [NUL])
    }

    /** The initialisation for an absolute path. */
    constructor ()
      ensures Holds([], "") && fresh(normPath) && fresh(pathComponents)
    {
      normPath := new char[MAXPATHLEN](i => if i == 0 then '/' else NUL);
      pathComponents := new Component[MAXPATHLEN / 2 + 2];
      numComponents := 0;
      dst := 1;
    }

    /** The case of "..". */
    method Up(ghost stack: seq<string>, ghost bottom: string)
      requires Holds(stack, bottom)
      modifies this
      ensures Holds(Enter(stack, ".."), bottom)
      ensures dst <= old(dst)
    {
      if numComponents > 0 {
        ghost var n := |stack| - 1;
        FlatLength(stack[..n]);
        DescribesLess(pathComponents[..], stack, n);
        numComponents := numComponents - 1;
        if numComponents > 0 {
          var lastComponent := pathComponents[numComponents - 1];
          assert lastComponent == pathComponents[..][n - 1];
          dst := lastComponent.start + lastComponent.len + 1;
        } else {
          dst := 1;
        }
        BytesCut(normPath[..], old(dst), stack);
      }
    }

    /** The case of an ordinary component: it is copied behind the others. */
    method Down(c: string, ghost stack: seq<string>, ghost bottom: string)
      requires Holds(stack, bottom) && dst + |c| + 1 <= MAXPATHLEN && numComponents < pathComponents.Length
      modifies this, normPath, pathComponents
      ensures Holds(stack + [c], if stack == [] then c else bottom)
      ensures dst == old(dst) + |c| + 1
    {
      ghost var before := normPath[..];
      CopyName(c);
      BytesAppended(before, normPath[..], dst, c, stack);
      AddDescriptor(c, stack);
    }

    /** The new descriptor, and the cursor behind it. */
    method AddDescriptor(c: string, ghost stack: seq<string>)
      requires numComponents == |stack| < pathComponents.Length && Describes(pathComponents[..], stack)
      requires dst == Offset(stack, |stack|)
      modifies `numComponents, `dst, pathComponents
      ensures numComponents == |stack| + 1 && Describes(pathComponents[..], stack + [c])
      ensures dst == old(dst) + |c| + 1 == Offset(stack + [c], |stack| + 1)
    {
      ghost var before := pathComponents[..];
      DescribesMore(before, stack, c);
      pathComponents[numComponents] := Component(dst, |c|);
      assert pathComponents[..] == before[|stack| := Component(dst, |c|)];
      numComponents := numComponents + 1;
      dst := dst + |c| + 1;
    }

    /** strlcpy(dst, token, idx + 1) and the terminator. */
    method CopyName(c: string)
      requires dst + |c| + 1 <= normPath.Length
      modifies normPath
      ensures normPath[..dst] == old(normPath[..dst])
      ensures normPath[dst..dst + |c| + 1] == c + [NUL]
    {
      var k := 0;
      while k < |c|
        invariant k <= |c|
        invariant normPath[..dst] == old(normPath[..dst])
        invariant normPath[dst..dst + k] == c[..k]
      {
        normPath[dst + k] := c[k];
        k := k + 1;
      }
      normPath[dst + |c|] := NUL;
    }

    /** The buffer after the given components were read. */
    ghost predicate Read(done: seq<string>)
      reads this, normPath, pathComponents
    {
      Holds(Resolve(done), LastAtRoot(done)) && AreKept(Resolve(done))
    }

    /** One turn of the normalising loop. */
    method Process(path: string, token: nat, idx: nat, ghost done: seq<string>)
      requires NUL !in path && |path| < MAXPATHLEN && 1 <= token <= |path|
      requires idx == SpanToSlash(path[token..]) && idx > 0
      requires Read(done) && dst <= token
      modifies this, normPath, pathComponents
      ensures Read(done + [path[token..token + idx]])
      ensures dst <= token + idx + 1
    {
      ghost var stack := Resolve(done);
      var c := path[token..token + idx];
      Appended(done, c);
      TokenIsDots(path, token);
      if At(path, token) == '.' && (At(path, token + 1) == NUL || At(path, token + 1) == '/') {
        assert c == ".";
      } else if At(path, token) == '.' && At(path, token + 1) == '.' && (At(path, token + 2) == NUL || At(path, token + 2) == '/') {
        assert c == "..";
        Up(stack, LastAtRoot(done));
      } else {
        assert !IsDots(c);
        OffsetGrows(stack, 0, |stack|);
        Down(c, stack, LastAtRoot(done));
      }
    }

    /** The normalising loop for an absolute path. */
    method Normalize(path: string) returns (ghost tokens: seq<string>)
      requires NUL !in path && 0 < |path| < MAXPATHLEN && path[0] == '/'
      requires Holds([], "")
      modifies this, normPath, pathComponents
      ensures tokens == Tokens(path[1..])
      ensures Read(tokens)
    {
      var token := 1;
      ghost var done: seq<string> := [];
      tokens := Tokens(path[token..]);
      assert done + tokens == tokens;
      assert Reads(done, path[token..], tokens);
      var idx := SpanToSlash(path[token..]);
      while idx > 0
        invariant 1 <= token <= |path| && idx == SpanToSlash(path[token..])
        invariant Read(done) && dst <= token
        invariant Reads(done, path[token..], tokens)
        decreases |path| - token
      {
        Process(path, token, idx, done);
        TokensRead(done, path, token, idx, tokens);
        done := done + [path[token..token + idx]];
        if At(path, token + idx) == NUL {
          return;
        }
        token := token + idx + 1;
        idx := SpanToSlash(path[token..]);
      }
      assert done + [] == done;
    }

    /** strcmp of a literal with the component that starts at `at`. */
    method IsAt(name: string, at: nat, ghost c: string) returns (r: bool)
      requires NUL !in name && NUL !in c
      requires at + |c| < normPath.Length && normPath[at..at + |c|] == c && normPath[at + |c|] == NUL
      ensures r <==> c == name
    {
      var k := 0;
      while k < |name| && normPath[at + k] == name[k]
        invariant k <= |name| && k <= |c| && c[..k] == name[..k]
      {
        assert name[k] in name;
        assert k < |c| ==> c[k] == normPath[at..at + |c|][k];
        k := k + 1;
      }
      assert k < |c| ==> c[k] == normPath[at..at + |c|][k] && c[k] in c;
      r := k == |name| && normPath[at + k] == NUL;
      if c == name {
        assert c[..k] == name[..k];
      }
    }

    /** The removal of a resource fork suffix. */
    method Strip(ghost stack: seq<string>, ghost bottom: string)
      requires Holds(stack, bottom) && AreKept(stack)
      modifies `numComponents
      ensures numComponents == |StripFork(stack)|
    {
      if numComponents >= 2 {
        ghost var n := |stack|;
        LastTwo(stack);
        AtOf(normPath[..], stack, n - 2);
        AtOf(normPath[..], stack, n - 1);
        var first, second := pathComponents[numComponents - 2], pathComponents[numComponents - 1];
        assert first == pathComponents[..][n - 2] && second == pathComponents[..][n - 1];
        var isFork := IsAt("..namedfork", first.start, stack[n - 2]);
        if isFork {
          isFork := IsAt("rsrc", second.start, stack[n - 1]);
        }
        if isFork {
          numComponents := numComponents - 2;
        }
      }
    }

    /** The loop that turns terminators into slashes. */
    method AddSlashes(ghost stack: seq<string>)
      requires numComponents == |stack| && Describes(pathComponents[..], stack)
      requires Offset(stack, |stack|) <= normPath.Length && normPath.Length > 0 && normPath[0] == '/'
      requires forall i {:trigger ComponentAt(normPath[..], stack, i)} :: 0 <= i < |stack| ==> ComponentAt(normPath[..], stack, i)
      modifies normPath
      ensures stack == [] ==> normPath[..] == old(normPath[..])
      ensures stack != [] ==> normPath[..Offset(stack, |stack|)] == Join(stack) + [NUL]
    {
      ghost var was := normPath[..];
      var i := 0;
      assert was[..1] == Join([]) + "/";
      while i < numComponents
        invariant i <= numComponents && Slashed(normPath[..], was, stack, i)
        invariant i == 0 ==> normPath[..] == was
      {
        Separate(i, was, stack);
        i := i + 1;
      }
      assert stack[..|stack|] == stack;
    }

    /** What follows component i becomes a slash, or stays the terminator behind the last one. */
    method Separate(i: nat, ghost was: string, ghost stack: seq<string>)
      requires i < numComponents == |stack| && Describes(pathComponents[..], stack)
      requires Slashed(normPath[..], was, stack, i) && ComponentAt(was, stack, i)
      modifies normPath
      ensures Slashed(normPath[..], was, stack, i + 1)
    {
      ghost var now := normPath[..];
      SlashStep(now, was, stack, i);
      assert pathComponents[..][i] == pathComponents[i];
      var d := pathComponents[i];
      normPath[d.start + d.len] := if i == numComponents - 1 then NUL else '/';
      assert normPath[..] == now[d.start + d.len := if i == |stack| - 1 then NUL else '/'];
    }
  }

  /** The bytes of component i are at its offset. */
  predicate ComponentAt(b: string, stack: seq<string>, i: nat) {
    i < |stack| && Offset(stack, i) + |stack[i]| + 1 <= |b|
    && b[Offset(stack, i)..Offset(stack, i) + |stack[i]|] == stack[i]
    && b[Offset(stack, i) + |stack[i]|] == NUL
  }

  lemma {:induction false} FlatAt(b: string, stack: seq<string>, i: nat)
    requires i < |stack| && Offset(stack, |stack|) <= |b|
    requires 1 <= Offset(stack, |stack|) && b[1..Offset(stack, |stack|)] == Flat(stack)
    ensures ComponentAt(b, stack, i)
  {
    var n := |stack| - 1;
    var init, d := stack[..n], Offset(stack, |stack|);
    BytesCut(b, d, stack);
    FlatLength(init);
    if i == n {
      OffsetOfPrefix(stack, n, n);
      LastAt(b, Flat(init), stack[n], d);
    } else {
      OffsetOfPrefix(stack, n, n);
      OffsetOfPrefix(stack, n, i);
      FlatAt(b, init, i);
    }
  }

  lemma LastTwo(stack: seq<string>)
    requires AreKept(stack) && |stack| >= 2
    ensures var n := |stack|; stack[n - 2..] == [stack[n - 2], stack[n - 1]] && IsName(stack[n - 2]) && IsName(stack[n - 1])
  {
    assert stack[|stack| - 2] in stack && stack[|stack| - 1] in stack;
  }

  lemma AtOf(b: string, stack: seq<string>, i: nat)
    requires i < |stack| && 1 <= Offset(stack, |stack|) <= |b| && b[1..Offset(stack, |stack|)] == Flat(stack)
    ensures ComponentAt(b, stack, i)
  {
    FlatAt(b, stack, i);
  }

  lemma LastAt(b: string, head: string, c: string, d: nat)
    requires 1 <= d <= |b| && b[1..d] == head + c + [NUL]
    ensures var e := 1 + |head|; e + |c| + 1 == d && b[e..e + |c|] == c && b[e + |c|] == NUL
  {
    var flat, e := b[1..d], 1 + |head|;
    Middle(head, c, [NUL]);
    Slice(b, d, e, e + |c|);
    assert b[d - 1] == flat[d - 2];
  }

  lemma Slice(b: string, d: nat, x: nat, y: nat)
    requires 1 <= x <= y <= d <= |b|
    ensures b[1..d][x - 1..y - 1] == b[x..y]
  {
    var t := b[1..d];
    forall k | 0 <= k < y - x ensures t[x - 1..y - 1][k] == b[x..y][k] {
      assert t[x - 1 + k] == b[x + k];
    }
  }

  lemma Middle(x: string, y: string, z: string)
    ensures (x + y + z)[|x|..|x| + |y|] == y
  {}

  /** The first i components are joined by slashes, the others are as they were. */
  predicate Slashed(b: string, was: string, stack: seq<string>, i: nat) {
    && |b| == |was| && i <= |stack| && 1 <= Offset(stack, i) <= |b|
    && b[Offset(stack, i)..] == was[Offset(stack, i)..]
    && b[..Offset(stack, i)] == Join(stack[..i]) + [if 0 < i == |stack| then NUL else '/']
  }

  lemma SlashStep(now: string, was: string, stack: seq<string>, i: nat)
    requires i < |stack| && Slashed(now, was, stack, i) && ComponentAt(was, stack, i)
    ensures Offset(stack, i + 1) <= |now|
    ensures var end := if i == |stack| - 1 then NUL else '/';
            Slashed(now[Offset(stack, i) + |stack[i]| := end], was, stack, i + 1)
  {
    var end := if i == |stack| - 1 then NUL else '/';
    var p, c, head := Offset(stack, i), stack[i], Join(stack[..i]);
    ReplacedByte(now, was, p, c, head + "/", end);
    assert stack[..i + 1] == stack[..i] + [c];
    JoinMore(stack[..i], [c]);
    assert Join([c]) == "/" + c;
    assert head + "/" + c + [end] == head + ("/" + c) + [end];
  }

  lemma ReplacedByte(now: string, was: string, p: nat, c: string, head: string, end: char)
    requires |now| == |was| && p + |c| < |now| && now[p..] == was[p..] && was[p..p + |c|] == c && now[..p] == head
    ensures var next := now[p + |c| := end];
            next[p + |c| + 1..] == was[p + |c| + 1..] && next[..p + |c| + 1] == head + c + [end]
  {
    var q := p + |c|;
    var next := now[q := end];
    forall i | p <= i < |now| ensures now[i] == was[i] {
      assert now[p..][i - p] == was[p..][i - p];
    }
    assert now[p..q] == c;
    assert next[..q + 1] == now[..p] + now[p..q] + [end];
  }

  /** A buffer shows a string: the string, then a terminator. */
  predicate Shows(b: string, s: string) {
    |s| < |b| && b[..|s|] == s && b[|s|] == NUL && NUL !in s
  }

  lemma Appended(done: seq<string>, c: string)
    ensures Resolve(done + [c]) == Enter(Resolve(done), c)
    ensures LastAtRoot(done + [c]) == if !IsDots(c) && Resolve(done) == [] then c else LastAtRoot(done)
  {
    assert (done + [c])[..|done|] == done;
  }

  lemma TokenIsDots(path: string, token: nat)
    requires NUL !in path && token <= |path| && SpanToSlash(path[token..]) > 0
    ensures var c := path[token..token + SpanToSlash(path[token..])];
            IsName(c)
            && (c == "." <==> At(path, token) == '.' && (At(path, token + 1) == NUL || At(path, token + 1) == '/'))
            && (c == ".." <==> At(path, token) == '.' && At(path, token + 1) == '.'
                               && (At(path, token + 2) == NUL || At(path, token + 2) == '/'))
  {
    var n := SpanToSlash(path[token..]);
    SpanFacts(path[token..]);
    var c := path[token..token + n];
    assert c == path[token..][..n];
    forall i | token <= i < |path| ensures path[i] != NUL { assert path[i] in path; }
    forall i | 0 <= i < n ensures At(path, token + i) == c[i] && c[i] != '/' && c[i] != NUL {
      assert c[i] == path[token..][..n][i];
    }
    assert At(path, token + n) == NUL || At(path, token + n) == '/';
  }

  /** The tokens read so far and those to come. */
  predicate Reads(done: seq<string>, text: string, tokens: seq<string>) { done + Tokens(text) == tokens }

  lemma TokensRead(done: seq<string>, path: string, token: nat, idx: nat, tokens: seq<string>)
    requires NUL !in path && token <= |path| && idx == SpanToSlash(path[token..]) > 0
    requires Reads(done, path[token..], tokens)
    ensures At(path, token + idx) == NUL ==> done + [path[token..token + idx]] == tokens
    ensures At(path, token + idx) != NUL ==>
      token + idx < |path| && Reads(done + [path[token..token + idx]], path[token + idx + 1..], tokens)
  {
    var rest, c := path[token..], path[token..token + idx];
    SpanFacts(rest);
    assert rest[..idx] == c;
    if token + idx < |path| {
      assert path[token + idx] in path;
      assert rest[idx + 1..] == path[token + idx + 1..];
      Regroup(done, [c], Tokens(path[token + idx + 1..]));
    } else {
      assert rest == c;
    }
  }

  // ---------------------------------------------------------------- the result

  lemma {:induction false} TokensAreNames(s: string)
    requires NUL !in s
    ensures AreNames(Tokens(s))
    decreases |s|
  {
    var n := SpanToSlash(s);
    SpanFacts(s);
    if 0 < n {
      assert s[..n][0] == s[0];
      if n < |s| {
        TokensAreNames(s[n + 1..]);
      } else {
        assert s[..n] == s;
      }
    }
  }

  lemma {:induction false} LastAtRootFacts(tokens: seq<string>)
    requires AreNames(tokens)
    ensures NUL !in LastAtRoot(tokens)
    ensures LastAtRoot(tokens) == "" <==> forall c :: c in tokens ==> IsDots(c)
    ensures AreKept(Resolve(tokens)) && (LastAtRoot(tokens) == "" ==> Resolve(tokens) == [])
  {
    if tokens != [] {
      var init, c := tokens[..|tokens| - 1], tokens[|tokens| - 1];
      assert tokens == init + [c];
      assert c in tokens && forall d :: d in init ==> d in tokens;
      LastAtRootFacts(init);
    }
  }

  lemma PrefixComponents(b: string, stack: seq<string>, n: nat)
    requires n <= |stack| && 1 <= Offset(stack, |stack|) <= |b| && b[1..Offset(stack, |stack|)] == Flat(stack)
    ensures forall i {:trigger ComponentAt(b, stack[..n], i)} :: 0 <= i < n ==> ComponentAt(b, stack[..n], i)
    ensures Offset(stack[..n], n) <= |b|
  {
    var less := stack[..n];
    forall i | 0 <= i < n ensures ComponentAt(b, less, i) {
      FlatAt(b, stack, i);
      OffsetOfPrefix(stack, n, i);
    }
    OffsetOfPrefix(stack, n, n);
    if n > 0 {
      assert ComponentAt(b, less, n - 1);
    }
  }

  lemma {:induction false} JoinHasNoNul(cs: seq<string>)
    requires AreNames(cs)
    ensures NUL !in Join(cs) && |Join(cs)| + 1 == Offset(cs, |cs|)
  {
    if cs != [] {
      var n := |cs| - 1;
      assert cs == cs[..n] + [cs[n]];
      JoinMore(cs[..n], [cs[n]]);
      assert Join([cs[n]]) == "/" + cs[n];
      assert cs[n] in cs;
      JoinHasNoNul(cs[..n]);
      OffsetOfPrefix(cs, n, n);
    }
  }

  lemma BottomShown(b: string, stack: seq<string>, bottom: string)
    requires |b| == MAXPATHLEN && b[0] == '/' && NUL !in bottom
    requires stack == [] ==> |bottom| + 2 <= |b| && b[1..|bottom| + 2] == bottom + [NUL]
    requires stack != [] ==> ComponentAt(b, stack, 0) && bottom == stack[0]
    ensures Shows(b, "/" + bottom)
  {
    var n := |bottom|;
    if stack == [] {
      assert b[1..n + 1] == b[1..n + 2][..n] == bottom;
      assert b[n + 1] == b[1..n + 2][n];
    }
    assert b[..n + 1] == [b[0]] + b[1..n + 1];
  }

  lemma JoinShown(b: string, cs: seq<string>)
    requires AreNames(cs) && Offset(cs, |cs|) <= |b| && b[..Offset(cs, |cs|)] == Join(cs) + [NUL]
    ensures Shows(b, Join(cs))
  {
    JoinHasNoNul(cs);
    ShowsAll(b, Join(cs));
  }

  lemma ShowsAll(b: string, s: string)
    requires NUL !in s && |s| < |b| && b[..|s| + 1] == s + [NUL]
    ensures Shows(b, s)
  {
    var t := b[..|s| + 1];
    assert t[..|s|] == s && t[..|s|] == b[..|s|];
    assert t[|s|] == b[|s|];
  }

  /** The normaliser on an absolute path shorter than MAXPATHLEN: what the buffer shows at the end. */
  method NormalizePath(path: string) returns (normPath: array<char>)
    requires NUL !in path && 0 < |path| < MAXPATHLEN && path[0] == '/'
    ensures Shows(normPath[..], Normalized(Tokens(path[1..])))
  {
    var buf := new PathBuffer();
    ghost var tokens := buf.Normalize(path);
    normPath := buf.normPath;
    ghost var stack, bottom := Resolve(tokens), LastAtRoot(tokens);
    ghost var kept := StripFork(stack);
    assert NUL !in path[1..];
    TokensAreNames(path[1..]);
    LastAtRootFacts(tokens);
    buf.Strip(stack, bottom);
    PrefixComponents(normPath[..], stack, |kept|);
    DescribesLess(buf.pathComponents[..], stack, |kept|);
    assert stack[..|kept|] == kept;
    ghost var was := normPath[..];
    if stack != [] {
      FlatAt(was, stack, 0);
    }
    buf.AddSlashes(kept);
    if kept == [] {
      BottomShown(was, stack, bottom);
    } else {
      JoinShown(normPath[..], kept);
    }
  }

  /** The buffer ends up with the lexical resolution exactly when something is left of the path, or
      nothing but "." and ".." was in it; otherwise it still shows the last component entered from
      the root. */
  lemma NormalizedExactly(tokens: seq<string>)
    requires AreNames(tokens)
    ensures Normalized(tokens) == PathOf(StripFork(Resolve(tokens))) <==>
            StripFork(Resolve(tokens)) != [] || forall c :: c in tokens ==> IsDots(c)
  {
    LastAtRootFacts(tokens);
    var s := "/" + LastAtRoot(tokens);
    assert s == "/" <==> LastAtRoot(tokens) == "";
  }

  // ---------------------------------------------------------------- laws of lexical resolution

  lemma {:induction false} ResolveFrom(a: seq<string>, a': seq<string>, b: seq<string>)
    requires Resolve(a) == Resolve(a')
    ensures Resolve(a + b) == Resolve(a' + b)
  {
    if b == [] {
      assert a + b == a && a' + b == a';
    } else {
      var n := |b| - 1;
      assert (a + b)[..|a + b| - 1] == a + b[..n] && (a' + b)[..|a' + b| - 1] == a' + b[..n];
      ResolveFrom(a, a', b[..n]);
    }
  }

  /** "." can be dropped; a component followed by ".." can be dropped; ".." at the root can be dropped. */
  lemma ResolutionLaws(a: seq<string>, c: string, b: seq<string>)
    requires IsName(c) && !IsDots(c)
    ensures Resolve(a + ["."] + b) == Resolve(a + b)
    ensures Resolve(a + [c] + [".."] + b) == Resolve(a + b)
    ensures Resolve([".."] + b) == Resolve(b)
  {
    Appended(a, ".");
    ResolveFrom(a + ["."], a, b);
    Appended(a, c);
    Appended(a + [c], "..");
    ResolveFrom(a + [c] + [".."], a, b);
    Appended([], "..");
    assert [] + [".."] == [".."] && [] + b == b;
    ResolveFrom([".."], [], b);
  }

  /** Without "." and ".." a path is its own resolution. */
  lemma {:induction false} ResolvedAlready(cs: seq<string>)
    requires AreKept(cs)
    ensures Resolve(cs) == cs
  {
    if cs != [] {
      var n := |cs| - 1;
      assert cs == cs[..n] + [cs[n]];
      ResolvedAlready(cs[..n]);
      assert cs[n] in cs;
    }
  }

  /** Reads the string a buffer shows. */
  method ReadString(b: array<char>, ghost s: string) returns (r: string)
    requires Shows(b[..], s)
    ensures r == s
  {
    var n := 0;
    assert forall i :: 0 <= i < |s| ==> s[i] == b[..][..|s|][i] && s[i] in s;
    while b[n] != NUL
      invariant n <= |s|
      decreases |s| - n
    {
      n := n + 1;
    }
    r := b[..n];
    assert b[..][..|s|] == b[..|s|];
  }

  /** The answer for an absolute path: without a filemap, or for no path, access is granted. */
  function Answer(filemap: Option<seq<Rule>>, path: string, report: bool, directory: bool, dependency: int): Verdict {
    if filemap.None? || path == "" then Verdict(true, Silent)
    else Checked(filemap.value, Normalized(Tokens(path[1..])), report, directory, dependency)
  }

  /** __darwintrace_is_in_sandbox for an absolute path, without symlink expansion: the normalized
      path is checked. */
  method IsInSandbox(filemap: Option<string>, path: string, report: bool, allowDir: bool, isDirectory: bool, dependency: int,
                     ghost rules: seq<Rule>) returns (v: Verdict)
    requires filemap.Some? ==> AreRules(rules) && Serialize(rules) <= filemap.value
    requires NUL !in path && |path| < MAXPATHLEN && (path != "" ==> path[0] == '/')
    ensures v == Answer(if filemap.None? then None else Some(rules), path, report, allowDir && isDirectory, dependency)
  {
    if filemap.None? {
      return Verdict(true, Silent);
    }
    if path == "" {
      return Verdict(true, Silent);
    }
    var normPath := NormalizePath(path);
    var text := ReadString(normPath, Normalized(Tokens(path[1..])));
    v := SandboxCheck(filemap.value, text, report, allowDir, isDirectory, dependency, rules);
  }

  /** The rules behind the shared pointer. */
  function RulesOf(filemap: FilemapPublication.Ptr, rulesAt: FilemapPublication.Ptr -> seq<Rule>): Option<seq<Rule>> {
    if filemap == FilemapPublication.NULL then None else Some(rulesAt(filemap))
  }

  /** When all threads that asked for the filemap have returned, every access is granted if all replies were empty;
      otherwise the published rules decide. */
  lemma AnswerAfterReplies(states: seq<FilemapPublication.State>, steps: seq<FilemapPublication.Step>, i: nat,
                           rulesAt: FilemapPublication.Ptr -> seq<Rule>, path: string, report: bool, directory: bool, dependency: int)
    requires FilemapPublication.IsRun(states, steps) && i < |states| && FilemapPublication.AllDone(states[i])
    ensures Answer(RulesOf(states[i].filemap, rulesAt), path, report, directory, dependency) ==
            if states[i].received == {} || path == "" then Verdict(true, Silent)
            else Checked(rulesAt(states[i].filemap), Normalized(Tokens(path[1..])), report, directory, dependency)
  {
    FilemapPublication.PublishedExactlyWhenSomeReply(states, steps, i);
  }

  // ---------------------------------------------------------------- which components are seen

  /** All non-empty components. */
  function Components(s: string): seq<string>
    decreases |s|
  {
    var n := SpanToSlash(s);
    if s == "" then []
    else if n == 0 then Components(s[1..])
    else if n == |s| then [s]
    else [s[..n]] + Components(s[n + 1..])
  }

  /** Two slashes, and a character that is no slash behind them. */
  predicate SkipsAt(path: string, i: nat, j: nat) {
    i + 1 < j < |path| && path[i] == '/' && path[i + 1] == '/' && path[j] != '/'
  }

  ghost predicate HasEmptyComponent(path: string) { exists i: nat, j: nat :: SkipsAt(path, i, j) }

  predicate AllSlashes(s: string) { forall i :: 0 <= i < |s| ==> s[i] == '/' }

  lemma {:induction false} NoComponents(s: string)
    ensures Components(s) == [] <==> AllSlashes(s)
    decreases |s|
  {
    if s != "" && s[0] == '/' {
      NoComponents(s[1..]);
      assert s == "/" + s[1..];
    }
  }

  lemma EmptyAtStart(s: string)
    requires s != "" && s[0] == '/'
    ensures HasEmptyComponent("/" + s) <==> !AllSlashes(s)
  {
    var p := "/" + s;
    if !AllSlashes(s) {
      var j :| 0 <= j < |s| && s[j] != '/';
      assert SkipsAt(p, 0, j + 1);
    }
  }

  lemma NoneInLast(s: string)
    requires s != "" && SpanToSlash(s) == |s|
    ensures !HasEmptyComponent("/" + s)
  {
    SpanFacts(s);
    var p := "/" + s;
    forall i: nat, j: nat ensures !SkipsAt(p, i, j) {
      assert i + 1 < |p| ==> p[i + 1] == s[i];
    }
  }

  lemma NotBefore(s: string, n: nat, i: nat, j: nat)
    requires 0 < n < |s| && (forall k :: 0 <= k < n ==> s[k] != '/') && SkipsAt("/" + s, i, j)
    ensures i > n
  {
    var p := "/" + s;
    forall k | 0 <= k < n ensures p[k + 1] == s[k] {}
  }

  lemma EmptyBehind(s: string, n: nat)
    requires 0 < n < |s| && n == SpanToSlash(s)
    ensures HasEmptyComponent("/" + s) <==> HasEmptyComponent("/" + s[n + 1..])
  {
    SpanFacts(s);
    var p, q := "/" + s, "/" + s[n + 1..];
    forall i | 0 <= i < |q| ensures p[n + 1 + i] == q[i] {}
    if HasEmptyComponent(p) {
      var i: nat, j: nat :| SkipsAt(p, i, j);
      NotBefore(s, n, i, j);
      assert SkipsAt(q, i - n - 1, j - n - 1);
    }
    if HasEmptyComponent(q) {
      var i: nat, j: nat :| SkipsAt(q, i, j);
      assert SkipsAt(p, i + n + 1, j + n + 1);
    }
  }

  /** The loop sees all components of an absolute path exactly when no empty component lies before one
      of them; slashes at the end do not matter. */
  lemma {:induction false} SeesAllExactly(s: string)
    ensures Tokens(s) == Components(s) <==> !HasEmptyComponent("/" + s)
    decreases |s|
  {
    var n := SpanToSlash(s);
    if s == "" {
      assert forall i: nat, j: nat :: !SkipsAt("/" + s, i, j);
    } else if n == 0 {
      SpanFacts(s);
      NoComponents(s[1..]);
      EmptyAtStart(s);
      assert s == "/" + s[1..];
    } else if n == |s| {
      NoneInLast(s);
    } else {
      SeesAllExactly(s[n + 1..]);
      EmptyBehind(s, n);
      SameHead(s[..n], Tokens(s[n + 1..]), Components(s[n + 1..]));
    }
  }

  /** An empty component starts at n: a slash at the start, or behind another one. */
  predicate EmptyAt(s: string, n: nat)
    requires n < |s|
  {
    s[n] == '/' && (n == 0 || s[n - 1] == '/')
  }

  /** On every path the loop sees the components before the first empty one, and no other. */
  lemma {:induction false} TokensExactly(s: string, n: nat)
    requires n <= |s| && (n < |s| ==> EmptyAt(s, n)) && forall i :: 0 <= i < n ==> !EmptyAt(s, i)
    ensures Tokens(s) == Components(s[..n])
    decreases |s|
  {
    var k := SpanToSlash(s);
    SpanFacts(s);
    if k == |s| {
      assert s[..n] == s;
    } else if k > 0 {
      assert n > k;
      var t, m := s[k + 1..], n - k - 1;
      assert m < |t| ==> EmptyAt(t, m);
      forall i | 0 <= i < m ensures !EmptyAt(t, i) {
        assert !EmptyAt(s, k + 1 + i);
      }
      TokensExactly(t, m);
      FirstComponent(s, n, k);
    } else {
      assert EmptyAt(s, 0);
    }
  }

  lemma FirstComponent(s: string, n: nat, k: nat)
    requires 0 < k < n <= |s| && k == SpanToSlash(s)
    ensures Components(s[..n]) == [s[..k]] + Components(s[k + 1..][..n - k - 1])
  {
    SpanFacts(s);
    SpanOfName(s[..k], s[..n][k..]);
    assert s[..k] + s[..n][k..] == s[..n];
    assert s[..n][..k] == s[..k] && s[..n][k + 1..] == s[k + 1..][..n - k - 1];
  }

  lemma SameHead(c: string, a: seq<string>, b: seq<string>)
    ensures [c] + a == [c] + b <==> a == b
  {
    assert ([c] + a)[1..] == a && ([c] + b)[1..] == b;
  }

  // ---------------------------------------------------------------- what is checked

  /** For an absolute path without an empty component before another one, what is checked is the lexical
      resolution of its components (without a resource fork suffix), exactly when something is left of
      it or nothing but "." and ".." was in it. */
  lemma CheckedPathIsResolution(path: string)
    requires NUL !in path && path != "" && path[0] == '/' && !HasEmptyComponent(path)
    ensures var cs := Components(path[1..]);
            Normalized(Tokens(path[1..])) == PathOf(StripFork(Resolve(cs))) <==>
            StripFork(Resolve(cs)) != [] || forall c :: c in cs ==> IsDots(c)
  {
    assert path == "/" + path[1..];
    SeesAllExactly(path[1..]);
    TokensAreNames(path[1..]);
    NormalizedExactly(Components(path[1..]));
  }

  /** A path that starts with two slashes is taken for the root: access is granted whatever the rules say. */
  lemma DoubleSlashIsAllowed(path: string, rules: seq<Rule>, report: bool, directory: bool, dependency: int)
    requires |path| >= 2 && path[0] == '/' && path[1] == '/'
    ensures Normalized(Tokens(path[1..])) == "/"
    ensures Checked(rules, Normalized(Tokens(path[1..])), report, directory, dependency) == Verdict(true, Silent)
  {
    assert SpanToSlash(path[1..]) == 0;
  }

  /** Leaving the only component leaves its name in the buffer: "/a/.." is checked as "/a". */
  lemma LeftComponentIsChecked()
    ensures Normalized(Tokens("/a/.."[1..])) == "/a" && Resolve(Tokens("/a/.."[1..])) == []
  {
    var s := "a/..";
    assert "/a/.."[1..] == s && SpanToSlash(s) == 1 && s[..1] == "a" && s[2..] == "..";
    assert SpanToSlash("..") == 2;
    assert Tokens(s) == ["a", ".."];
    assert ["a", ".."][..1] == ["a"] && ["a"][..0] == [];
    assert Resolve(["a"]) == ["a"] && LastAtRoot(["a"]) == "a";
    assert ["a"][..0] == [];
  }

  // ---------------------------------------------------------------- the answer for a path

  /** The components of the path that the buffer shows. */
  function Shown(tokens: seq<string>): seq<string> {
    var stack := StripFork(Resolve(tokens));
    if stack != [] then stack else if LastAtRoot(tokens) == "" then [] else [LastAtRoot(tokens)]
  }

  lemma {:induction false} LastAtRootIsToken(tokens: seq<string>)
    ensures LastAtRoot(tokens) != "" ==> LastAtRoot(tokens) in tokens
  {
    if tokens != [] {
      LastAtRootIsToken(tokens[..|tokens| - 1]);
    }
  }

  lemma NormalizedIsShown(tokens: seq<string>)
    requires AreNames(tokens)
    ensures Normalized(tokens) == PathOf(Shown(tokens)) && AreNames(Shown(tokens))
  {
    LastAtRootFacts(tokens);
    LastAtRootIsToken(tokens);
    OneName(LastAtRoot(tokens));
  }

  lemma OneName(c: string)
    ensures Join([c]) == "/" + c
  {
    assert [c][1..] == [] && Join([]) == "";
  }

  /** The answer for every absolute path and every list of rules: access is granted to the root and to admitted
      directories, and otherwise exactly when the first rule that redirects, or that is for an ancestor of what the
      buffer shows or for it, grants it. */
  lemma AnswerForPath(path: string, rules: seq<Rule>, report: bool, directory: bool, dependency: int)
    requires NUL !in path && path != "" && path[0] == '/'
    ensures var v, ds := Answer(Some(rules), path, report, directory, dependency), Shown(Tokens(path[1..]));
            (v.Verdict? && v.allowed <==> ds == [] || directory || Granted(rules, Join(ds), dependency))
            && (v.Aborted? <==> ds != [] && !directory && Unknowable(rules, Join(ds)))
  {
    var tokens := Tokens(path[1..]);
    TokensAreNames(path[1..]);
    NormalizedIsShown(tokens);
    RootOnly(Shown(tokens));
    AllowedByFirstAncestor(rules, Join(Shown(tokens)), dependency);
  }

  lemma RootOnly(ds: seq<string>)
    requires AreNames(ds)
    ensures PathOf(ds) == "/" <==> ds == []
  {
    if ds != [] {
      assert ds[0] in ds;
      assert |Join(ds)| > 1;
    }
  }

  /** Where nothing is hidden, that is the first rule above the lexical resolution. */
  lemma ShownIsResolution(path: string)
    requires NUL !in path && path != "" && path[0] == '/' && !HasEmptyComponent(path)
    requires var cs := Components(path[1..]); StripFork(Resolve(cs)) != [] || forall c :: c in cs ==> IsDots(c)
    ensures Shown(Tokens(path[1..])) == StripFork(Resolve(Components(path[1..])))
  {
    assert path == "/" + path[1..];
    SeesAllExactly(path[1..]);
    TokensAreNames(path[1..]);
    LastAtRootFacts(Components(path[1..]));
  }
}
