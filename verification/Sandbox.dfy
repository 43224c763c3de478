/** The sandbox decision of darwintrace.c: a serialized list of rules, its iterator, the test whether
    a path lies below another, and the first rule that matches. */
module Sandbox {

  import opened CStrings
  import opened Sequences
  import opened Wrappers

  const FILEMAP_ALLOW: char := 0 as char
  const FILEMAP_REDIR: char := 1 as char
  const FILEMAP_ASK: char := 2 as char
  const FILEMAP_DENY: char := 3 as char

  // ---------------------------------------------------------------- paths and their components

  predicate AreNames(cs: seq<string>) { forall c :: c in cs ==> IsName(c) }

  /** "/a/b" for ["a", "b"]; empty for no components. */
  function Join(cs: seq<string>): string {
    if cs == [] then "" else "/" + cs[0] + Join(cs[1..])
  }

  /** The normalized absolute path with these components. */
  function PathOf(cs: seq<string>): string { if cs == [] then "/" else Join(cs) }

  /** What __darwintrace_pathbeginswith answers, as text. */
  predicate BeginsWith(str: string, prefix: string) {
    prefix == "" || prefix == "/" || str == prefix || prefix + "/" <= str
  }

  /** __darwintrace_pathbeginswith: two cursors over NUL-terminated strings. */
  method PathBeginsWith(str: string, prefix: string) returns (r: bool)
    requires NUL !in str && NUL !in prefix
    ensures r <==> BeginsWith(str, prefix)
  {
    if At(prefix, 0) == NUL || (At(prefix, 0) == '/' && At(prefix, 1) == NUL) {
      Terminator(prefix, 0);
      Terminator(prefix, 1);
      return true;
    }
    var i := 0;
    while At(prefix, i) != NUL && At(prefix, i) == At(str, i)
      invariant i <= |prefix| && i <= |str|
      invariant prefix[..i] == str[..i]
      decreases |prefix| - i
    {
      Terminator(prefix, i);
      Terminator(str, i);
      i := i + 1;
    }
    Terminator(prefix, i);
    Terminator(str, i);
    r := At(prefix, i) == NUL && (At(str, i) == '/' || At(str, i) == NUL);
    if i == |prefix| {
      assert str == prefix + str[i..];
      assert prefix + "/" <= str <==> i < |str| && str[i] == '/';
    }
  }

  // ---------------------------------------------------------------- parts of a path

  /** What lies between the slashes, from before the first one to behind the last one. */
  function Split(s: string): (parts: seq<string>)
    ensures parts != []
    decreases |s|
  {
    var n := SpanToSlash(s);
    if n == |s| then [s] else [s[..n]] + Split(s[n + 1..])
  }

  lemma SpanIs(s: string, n: nat)
    requires n <= |s| && '/' !in s[..n] && (n < |s| ==> s[n] == '/')
    ensures SpanToSlash(s) == n
  {
    SpanOfName(s[..n], s[n..]);
    assert s[..n] + s[n..] == s;
  }

  lemma SpanIsFree(s: string)
    ensures var n := SpanToSlash(s); '/' !in s[..n] && (n < |s| ==> s[n] == '/' && s == s[..n] + "/" + s[n + 1..])
  {
    SpanFacts(s);
    AroundSlash(s, SpanToSlash(s));
  }

  lemma AroundSlash(s: string, n: nat)
    requires n <= |s|
    ensures (forall i :: 0 <= i < n ==> s[i] != '/') ==> '/' !in s[..n]
    ensures n < |s| && s[n] == '/' ==> s == s[..n] + "/" + s[n + 1..]
  {}

  predicate Below(str: string, prefix: string) { str == prefix || prefix + "/" <= str }

  /** Behind a first part without a slash. */
  lemma BelowPart(c: string, r: string, d: string, t: string)
    requires '/' !in c && '/' !in d
    ensures Below(d + "/" + t, c + "/" + r) <==> c == d && Below(t, r)
  {
    var str, prefix := d + "/" + t, c + "/" + r;
    assert str[|d|] == '/' && prefix[|c|] == '/';
    assert forall i :: 0 <= i < |d| ==> str[i] == d[i];
    assert forall i :: 0 <= i < |c| ==> prefix[i] == c[i];
    if |c| == |d| {
      assert str[..|d|] == d && prefix[..|c|] == c && (prefix + "/")[..|c|] == c;
      assert str[|d| + 1..] == t && prefix[|c| + 1..] == r && (prefix + "/")[|c| + 1..] == r + "/";
    } else {
      assert forall i :: 0 <= i < |prefix| ==> (prefix + "/")[i] == prefix[i];
    }
  }

  /** Text before a slash is a prefix of the list of parts, on all strings. */
  lemma {:induction false} BelowIsPrefix(str: string, prefix: string)
    ensures Below(str, prefix) <==> Split(prefix) <= Split(str)
    decreases |prefix|
  {
    var n, m := SpanToSlash(prefix), SpanToSlash(str);
    SpanIsFree(prefix);
    SpanIsFree(str);
    if n == |prefix| {
      FirstPart(str, prefix);
    } else if m == |str| {
      assert prefix[n] == '/' && (prefix + "/")[n] == '/';
      assert str[..m] == str;
    } else {
      var c, r, d, t := prefix[..n], prefix[n + 1..], str[..m], str[m + 1..];
      BelowIsPrefix(t, r);
      BelowPart(c, r, d, t);
      PrefixPart(c, Split(r), d, Split(t));
    }
  }

  lemma PrefixPart(c: string, cs: seq<string>, d: string, ds: seq<string>)
    ensures [c] + cs <= [d] + ds <==> c == d && cs <= ds
  {
    if [c] + cs <= [d] + ds {
      assert ([c] + cs)[0] == ([d] + ds)[0];
      assert ([c] + cs)[1..] <= ([d] + ds)[1..];
    }
  }

  lemma FirstPart(str: string, prefix: string)
    requires '/' !in prefix
    ensures Below(str, prefix) <==> [prefix] <= Split(str)
  {
    SpanIsFree(str);
    assert [prefix] <= Split(str) <==> Split(str)[0] == prefix;
    assert str[..|str|] == str;
    assert prefix + "/" <= str ==> str[|prefix|] == '/' && str[..|prefix|] == prefix;
    if Below(str, prefix) {
      SpanIs(str, |prefix|);
    }
  }

  /** What __darwintrace_pathbeginswith compares, on every path and every rule: the lists of parts. */
  lemma BeginsWithIsPrefix(str: string, prefix: string)
    ensures BeginsWith(str, prefix) <==> prefix == "" || prefix == "/" || Split(prefix) <= Split(str)
  {
    BelowIsPrefix(str, prefix);
  }

  lemma SplitInjective(a: string, b: string)
    requires Split(a) == Split(b)
    ensures a == b
  {
    BelowIsPrefix(a, b);
    BelowIsPrefix(b, a);
    assert Below(a, b) && Below(b, a);
  }

  lemma SplitPart(d: string, t: string)
    requires '/' !in d
    ensures Split(d + ("/" + t)) == [d] + Split(t)
  {
    var s := d + ("/" + t);
    assert s[..|d|] == d && s[|d| + 1..] == t;
    SpanIs(s, |d|);
  }

  lemma JoinStarts(ds: seq<string>)
    requires AreNames(ds) && ds != []
    ensures Join(ds) == "/" + (ds[0] + Join(ds[1..])) && IsName(ds[0]) && AreNames(ds[1..]) && ds == [ds[0]] + ds[1..]
  {
    assert ds[0] in ds && forall c :: c in ds[1..] ==> c in ds;
    Regroup("/", ds[0], Join(ds[1..]));
  }

  lemma SplitName(d: string)
    requires '/' !in d
    ensures Split(d + Join([])) == [d]
  {
    assert d + Join([]) == d && d[..|d|] == d;
    SpanIs(d, |d|);
  }

  lemma {:induction false} SplitNames(d: string, ds: seq<string>)
    requires '/' !in d && AreNames(ds)
    ensures Split(d + Join(ds)) == [d] + ds
    decreases |ds|
  {
    if ds == [] {
      SplitName(d);
    } else {
      JoinStarts(ds);
      SplitPart(d, ds[0] + Join(ds[1..]));
      SplitNames(ds[0], ds[1..]);
    }
  }

  lemma SplitOfJoin(ds: seq<string>)
    requires AreNames(ds) && ds != []
    ensures Split(Join(ds)) == [""] + ds
  {
    SplitNames("", ds);
    assert "" + Join(ds) == Join(ds);
  }

  // ---------------------------------------------------------------- normalized paths

  /** For normalized paths, "begins with" is "is an ancestor or equal", component by component. */
  lemma BeginsWithIsAncestor(cs: seq<string>, ds: seq<string>)
    requires AreNames(cs) && AreNames(ds)
    ensures BeginsWith(PathOf(ds), PathOf(cs)) <==> cs <= ds
  {
    BeginsWithIsPrefix(PathOf(ds), PathOf(cs));
    if cs != [] {
      assert cs[0] in cs && |Join(cs)| >= 2;
      SplitOfJoin(cs);
      if ds == [] {
        BelowIsPrefix("/", Join(cs));
      } else {
        SplitOfJoin(ds);
        PrefixPart("", cs, "", ds);
      }
    }
  }

  lemma {:induction false} JoinMore(cs: seq<string>, ds: seq<string>)
    ensures Join(cs + ds) == Join(cs) + Join(ds)
  {
    if cs == [] {
      assert cs + ds == ds;
    } else {
      assert (cs + ds)[1..] == cs[1..] + ds;
      JoinMore(cs[1..], ds);
    }
  }

  /** On a normalized path only the normalized rules match, and the empty one. */
  lemma MatchesExactly(ds: seq<string>, prefix: string)
    requires AreNames(ds)
    ensures BeginsWith(PathOf(ds), prefix) <==> prefix == "" || exists n: nat :: n <= |ds| && prefix == PathOf(ds[..n])
  {
    BeginsWithIsPrefix(PathOf(ds), prefix);
    if BeginsWith(PathOf(ds), prefix) && prefix != "" {
      if prefix == "/" {
        assert prefix == PathOf(ds[..0]);
      } else if ds != [] {
        SplitOfJoin(ds);
        var n: nat := |Split(prefix)| - 1;
        assert Split(prefix) == [""] + ds[..n];
        if n == 0 {
          SpanIs("", 0);
          SplitInjective(prefix, "");
        } else {
          SplitOfJoin(ds[..n]);
          SplitInjective(prefix, Join(ds[..n]));
        }
      }
    }
    forall n: nat | n <= |ds| && prefix == PathOf(ds[..n]) ensures BeginsWith(PathOf(ds), prefix) {
      BeginsWithIsAncestor(ds[..n], ds);
    }
  }

  /** A rule whose path ends in a slash, other than "/", matches no normalized path. */
  lemma TrailingSlashMatchesNothing(prefix: string, ds: seq<string>)
    requires AreNames(ds) && prefix != "" && prefix[|prefix| - 1] == '/' && prefix != "/"
    ensures !BeginsWith(PathOf(ds), prefix)
  {
    if ds != [] {
      NormalizedEndsInName(ds);
      if prefix + "/" <= Join(ds) {
        assert (prefix + "/")[|prefix| - 1] == '/' && (prefix + "/")[|prefix|] == '/';
        NoDoubleSlash(ds, |prefix| - 1);
      }
    }
  }

  lemma {:induction false} NormalizedEndsInName(ds: seq<string>)
    requires AreNames(ds) && ds != []
    ensures Join(ds)[|Join(ds)| - 1] != '/'
  {
    assert ds[0] in ds;
    if |ds| > 1 {
      forall c | c in ds[1..] ensures IsName(c) { assert c in ds; }
      NormalizedEndsInName(ds[1..]);
    }
  }

  lemma {:induction false} NoDoubleSlash(ds: seq<string>, i: nat)
    requires AreNames(ds) && i + 1 < |Join(ds)|
    ensures !(Join(ds)[i] == '/' && Join(ds)[i + 1] == '/')
  {
    assert ds[0] in ds;
    var d, rest := ds[0], Join(ds[1..]);
    assert Join(ds) == "/" + d + rest;
    if i > |d| {
      forall c | c in ds[1..] ensures IsName(c) { assert c in ds; }
      NoDoubleSlash(ds[1..], i - |d| - 1);
    }
  }

  // ---------------------------------------------------------------- the serialized rules

  datatype Rule = Rule(path: string, command: char)

  predicate IsRulePath(p: string) { p != "" && NUL !in p }

  /** (path '\0' command '\0')* '\0' */
  function Serialize(rules: seq<Rule>): string {
    if rules == [] then [NUL] else rules[0].path + [NUL, rules[0].command, NUL] + Serialize(rules[1..])
  }

  predicate AreRules(rules: seq<Rule>) { forall r :: r in rules ==> IsRulePath(r.path) }

  datatype Item = NoMore | Found(rule: Rule) | Abort

  /** filemap_iterator_t: a cursor into the serialized rules. */
  class Iterator {
    const filemap: string
    var next: nat

    /** What is left of the filemap is the serialized form of these rules. */
    ghost predicate At(rules: seq<Rule>)
      reads this
    {
      AreRules(rules) && next <= |filemap| && Serialize(rules) <= filemap[next..]
    }

    /** __darwintrace_filemap_iterator_init. */
    constructor (filemap: string, ghost rules: seq<Rule>)
      requires AreRules(rules) && Serialize(rules) <= filemap
      ensures this.filemap == filemap && At(rules)
    {
      this.filemap := filemap;
      next := 0;
    }

    /** __darwintrace_filemap_iter: the next rule, in order; a REDIR command aborts. */
    method Next(ghost rules: seq<Rule>) returns (item: Item)
      requires At(rules)
      modifies this
      ensures rules == [] ==> item == NoMore && At([])
      ensures rules != [] && rules[0].command == FILEMAP_REDIR ==> item == Abort
      ensures rules != [] && rules[0].command != FILEMAP_REDIR ==> item == Found(rules[0]) && At(rules[1..])
    {
      ghost var rest := filemap[next..];
      Head(rules, rest);
      if filemap[next] == NUL {
        return NoMore;
      }
      var t := next;
      while filemap[t] != NUL
        invariant next <= t <= next + |rules[0].path|
        decreases next + |rules[0].path| - t
      {
        assert filemap[t] == rest[t - next];
        t := t + 1;
      }
      assert filemap[t] == rest[t - next];
      assert t == next + |rules[0].path|;
      var path, command := filemap[next..t], filemap[t + 1];
      assert path == rest[..t - next];
      if command == FILEMAP_REDIR {
        return Abort;
      }
      assert filemap[t + 3..] == rest[t + 3 - next..];
      next := t + 3;
      item := Found(Rule(path, command));
    }
  }

  lemma Head(rules: seq<Rule>, rest: string)
    requires AreRules(rules) && Serialize(rules) <= rest
    ensures rules == [] ==> rest != "" && rest[0] == NUL
    ensures rules != [] ==>
      var n := |rules[0].path|;
      n > 0 && n + 3 <= |rest| && rest[..n] == rules[0].path && rest[n] == NUL && rest[n + 1] == rules[0].command
      && (forall i :: 0 <= i < n ==> rest[i] != NUL)
      && AreRules(rules[1..]) && Serialize(rules[1..]) <= rest[n + 3..]
  {
    if rules != [] {
      var n := |rules[0].path|;
      assert rules[0] in rules;
      var s := rules[0].path + [NUL, rules[0].command, NUL] + Serialize(rules[1..]);
      assert s[..n] == rules[0].path;
      assert s[n + 3..] == Serialize(rules[1..]);
      forall i | 0 <= i < n ensures rest[i] != NUL {
        assert rest[i] == s[i] == rules[0].path[i];
        assert rules[0].path[i] in rules[0].path;
      }
      forall r | r in rules[1..] ensures IsRulePath(r.path) { assert r in rules; }
    }
  }

  /** Iterating the serialized form yields the rules in order. */
  method ReadRules(filemap: string, ghost rules: seq<Rule>) returns (read: seq<Rule>)
    requires AreRules(rules) && Serialize(rules) <= filemap
    requires forall r :: r in rules ==> r.command != FILEMAP_REDIR
    ensures read == rules
  {
    var it := new Iterator(filemap, rules);
    read := [];
    ghost var left := rules;
    while true
      invariant it.At(left) && rules == read + left
      decreases |left|
    {
      var item := it.Next(left);
      if left != [] {
        assert left[0] in rules;
      }
      if item.NoMore? {
        return;
      }
      assert rules == read + [left[0]] + left[1..];
      read := read + [item.rule];
      left := left[1..];
    }
  }

  /** The serialized form determines the rules. */
  lemma {:induction false} SerializeInjective(a: seq<Rule>, b: seq<Rule>)
    requires AreRules(a) && AreRules(b) && Serialize(a) <= Serialize(b)
    ensures a == b
  {
    Head(a, Serialize(b));
    Head(b, Serialize(b));
    if a != [] && b != [] {
      var s := Serialize(b);
      var n, m := |a[0].path|, |b[0].path|;
      assert s[n] == NUL && s[m] == NUL && (forall i :: 0 <= i < n ==> s[i] != NUL) && forall i :: 0 <= i < m ==> s[i] != NUL;
      assert s[m + 3..] == Serialize(b[1..]) by {
        assert s == b[0].path + [NUL, b[0].command, NUL] + Serialize(b[1..]);
      }
      SerializeInjective(a[1..], b[1..]);
      assert a == [a[0]] + a[1..] && b == [b[0]] + b[1..];
    }
  }

  // ---------------------------------------------------------------- the decision

  datatype Report = Silent | Unknown | Violation

  datatype Verdict = Verdict(allowed: bool, report: Report) | Aborted

  const DENIED := Verdict(false, Violation)

  /** What a matching rule decides; `dependency` is the answer of dependency_check. */
  function Decide(command: char, dependency: int): Verdict {
    if command == FILEMAP_ALLOW then Verdict(true, Silent)
    else if command == FILEMAP_ASK && dependency == 1 then Verdict(true, Silent)
    else if command == FILEMAP_ASK && dependency == -1 then Verdict(true, Unknown)
    else if command == FILEMAP_ASK || command == FILEMAP_DENY then DENIED
    else Aborted
  }

  /** The iteration ends at a rule whose path is an ancestor of the path or equal to it, and at a
      REDIR command, which aborts. */
  predicate Stops(r: Rule, path: string) { r.command == FILEMAP_REDIR || BeginsWith(path, r.path) }

  function FirstStop(rules: seq<Rule>, path: string): Option<nat> {
    if rules == [] then None
    else if Stops(rules[0], path) then Some(0)
    else match FirstStop(rules[1..], path) case None => None case Some(k) => Some(k + 1)
  }

  lemma {:induction false} FirstStopIsFirst(rules: seq<Rule>, path: string)
    ensures match FirstStop(rules, path)
            case None => forall j :: 0 <= j < |rules| ==> !Stops(rules[j], path)
            case Some(k) => k < |rules| && Stops(rules[k], path) && forall j :: 0 <= j < k ==> !Stops(rules[j], path)
  {
    if rules != [] && !Stops(rules[0], path) {
      FirstStopIsFirst(rules[1..], path);
      forall j | 0 < j < |rules| ensures rules[j] == rules[1..][j - 1] {}
    }
  }

  /** Reports are only made when DT_REPORT is set. */
  function Reported(v: Verdict, report: bool): Verdict {
    if v.Aborted? || report then v else v.(report := Silent)
  }

  function Judgement(rules: seq<Rule>, path: string, dependency: int): Verdict {
    match FirstStop(rules, path)
    case None => DENIED
    case Some(k) => if k < |rules| then Decide(rules[k].command, dependency) else Aborted
  }

  /** The answer for a path, where `directory` says that DT_ALLOWDIR is set and lstat found a directory. */
  function Checked(rules: seq<Rule>, path: string, report: bool, directory: bool, dependency: int): Verdict {
    if path == "/" || directory then Verdict(true, Silent) else Reported(Judgement(rules, path, dependency), report)
  }

  /** __darwintrace_sandbox_check.  `isDirectory` is the answer of lstat, `dependency` that of
      dependency_check. */
  method SandboxCheck(filemap: string, path: string, report: bool, allowDir: bool, isDirectory: bool, dependency: int,
                      ghost rules: seq<Rule>) returns (v: Verdict)
    requires AreRules(rules) && Serialize(rules) <= filemap && NUL !in path
    ensures v == Checked(rules, path, report, allowDir && isDirectory, dependency)
  {
    if path == "/" || (allowDir && isDirectory) {
      return Verdict(true, Silent);
    }
    var it := new Iterator(filemap, rules);
    ghost var left := rules;
    while true
      invariant it.At(left)
      invariant Judgement(left, path, dependency) == Judgement(rules, path, dependency)
      decreases |left|
    {
      var item := it.Next(left);
      if item.NoMore? {
        return Reported(DENIED, report);
      }
      if item.Abort? {
        return Aborted;
      }
      FirstStopIsFirst(left[1..], path);
      var matches := PathBeginsWith(path, item.rule.path);
      if matches {
        return Reported(Decide(item.rule.command, dependency), report);
      }
      left := left[1..];
    }
  }

  /** The rule ends the search for a path, by parts: it redirects, or it is for the path or above it. */
  predicate Ends(r: Rule, path: string) {
    r.command == FILEMAP_REDIR || r.path == "" || r.path == "/" || Split(r.path) <= Split(path)
  }

  predicate EndsAt(rules: seq<Rule>, path: string, k: nat) {
    k < |rules| && Ends(rules[k], path) && forall j :: 0 <= j < k ==> !Ends(rules[j], path)
  }

  /** The command grants access, given the answer of dependency_check. */
  predicate Grants(command: char, dependency: int) {
    command == FILEMAP_ALLOW || (command == FILEMAP_ASK && (dependency == 1 || dependency == -1))
  }

  predicate Decides(command: char) { command == FILEMAP_ALLOW || command == FILEMAP_ASK || command == FILEMAP_DENY }

  /** The rule that ends the search for a path grants access, or is of no known command. */
  ghost predicate Granted(rules: seq<Rule>, path: string, dependency: int) {
    exists k: nat :: EndsAt(rules, path, k) && Grants(rules[k].command, dependency)
  }

  ghost predicate Unknowable(rules: seq<Rule>, path: string) {
    exists k: nat :: EndsAt(rules, path, k) && !Decides(rules[k].command)
  }

  lemma EndIsStop(rules: seq<Rule>, path: string)
    ensures match FirstStop(rules, path)
            case None => forall k: nat :: !EndsAt(rules, path, k)
            case Some(n) => EndsAt(rules, path, n) && forall k: nat :: EndsAt(rules, path, k) ==> k == n
  {
    FirstStopIsFirst(rules, path);
    forall j | 0 <= j < |rules| ensures Stops(rules[j], path) <==> Ends(rules[j], path) {
      BeginsWithIsPrefix(path, rules[j].path);
    }
  }

  /** The answer, for every list of rules and every path: the first rule that redirects, or that is for the path or
      above it, decides.  The path is allowed exactly when there is one and its command grants access, and the
      process is aborted exactly when there is one with another command than allow, ask and deny. */
  lemma AllowedByFirstAncestor(rules: seq<Rule>, path: string, dependency: int)
    ensures var v := Judgement(rules, path, dependency);
            (v.Verdict? && v.allowed <==> Granted(rules, path, dependency)) && (v.Aborted? <==> Unknowable(rules, path))
  {
    EndIsStop(rules, path);
  }
}
