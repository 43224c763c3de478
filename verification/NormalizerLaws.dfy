/** The path normaliser and the sandbox decision, said with literal texts: what becomes of a path without a resource fork
    suffix, what that suffix is, which component is shown when all were left, and what is reported. */
module NormalizerLaws {

  import opened CStrings
  import opened Wrappers
  import opened Sandbox
  import opened PathNormalizer

  // ---------------------------------------------------------------- the resource fork suffix

  predicate EndsInFork(s: seq<string>) { |s| >= 2 && s[|s| - 2] == "..namedfork" && s[|s| - 1] == "rsrc" }

  /** Exactly the two components of a resource fork are dropped, and only at the end. */
  lemma StripExactly(s: seq<string>)
    ensures if EndsInFork(s) then StripFork(s) + ["..namedfork", "rsrc"] == s else StripFork(s) == s
  {
    if |s| >= 2 {
      assert s == s[..|s| - 2] + s[|s| - 2..];
      assert s[|s| - 2..] == [s[|s| - 2], s[|s| - 1]];
    }
  }

  // ---------------------------------------------------------------- resolution

  /** Components without "." and ".." are their own resolution. */
  lemma {:induction false} PlainIsResolved(cs: seq<string>)
    requires forall c :: c in cs ==> c != "." && c != ".."
    ensures Resolve(cs) == cs
  {
    if cs != [] {
      var n := |cs| - 1;
      assert cs == cs[..n] + [cs[n]] && cs[n] in cs && forall c :: c in cs[..n] ==> c in cs;
      PlainIsResolved(cs[..n]);
    }
  }

  /** "." can be dropped anywhere, a component and the ".." behind it too, and ".." at the root. */
  lemma DotsCancel(a: seq<string>, c: string, b: seq<string>)
    requires IsName(c) && c != "." && c != ".."
    ensures Resolve(a + ["."] + b) == Resolve(a + b)
    ensures Resolve(a + [c] + [".."] + b) == Resolve(a + b)
    ensures Resolve([".."] + b) == Resolve(b)
  {
    ResolutionLaws(a, c, b);
  }

  /** When nothing is left, the buffer shows the last component that was entered from the root. */
  lemma {:induction false} LastEntered(a: seq<string>, c: string, b: seq<string>)
    requires Resolve(a) == [] && c != "." && c != ".."
    requires forall j :: 0 <= j < |b| && b[j] != "." && b[j] != ".." ==> Resolve(a + [c] + b[..j]) != []
    ensures LastAtRoot(a + [c] + b) == c
  {
    var t := a + [c] + b;
    var n := |b| - 1;
    if b == [] {
      assert t == a + [c];
      LastBehind(a, c);
    } else {
      assert t[..|t| - 1] == a + [c] + b[..n] && t[|t| - 1] == b[n];
      forall j | 0 <= j < n && b[..n][j] != "." && b[..n][j] != ".." ensures Resolve(a + [c] + b[..n][..j]) != [] {
        assert b[..n][..j] == b[..j];
      }
      LastEntered(a, c, b[..n]);
    }
  }

  lemma LastBehind(a: seq<string>, c: string)
    requires Resolve(a) == [] && c != "." && c != ".."
    ensures LastAtRoot(a + [c]) == c
  {
    assert (a + [c])[..|a|] == a;
  }

  // ---------------------------------------------------------------- the answer for plain paths

  /** An absolute path with components between single slashes, whose resolution has something left and no resource
      fork suffix: the buffer shows the resolution. */
  lemma ResolutionIsShown(path: string)
    requires NUL !in path && path != "" && path[0] == '/' && !HasEmptyComponent(path)
    requires var r := Resolve(Components(path[1..])); r != [] && !EndsInFork(r)
    ensures Normalized(Tokens(path[1..])) == Join(Resolve(Components(path[1..])))
  {
    assert path == "/" + path[1..];
    SeesAllExactly(path[1..]);
    StripExactly(Resolve(Components(path[1..])));
  }

  /** The answer for it: granted to admitted directories, and otherwise exactly when the first rule that redirects, or is
      for an ancestor of the resolution or for it, grants it. */
  lemma AnswerForResolution(path: string, rules: seq<Rule>, report: bool, directory: bool, dependency: int)
    requires NUL !in path && path != "" && path[0] == '/' && !HasEmptyComponent(path)
    requires var r := Resolve(Components(path[1..])); r != [] && !EndsInFork(r)
    ensures var v, text := Answer(Some(rules), path, report, directory, dependency), Join(Resolve(Components(path[1..])));
            (v.Verdict? && v.allowed <==> directory || Granted(rules, text, dependency))
            && (v.Aborted? <==> !directory && Unknowable(rules, text))
  {
    assert path == "/" + path[1..];
    SeesAllExactly(path[1..]);
    StripExactly(Resolve(Components(path[1..])));
    AnswerForPath(path, rules, report, directory, dependency);
  }

  /** A path of components without dots and suffix is answered as it is written. */
  lemma AnswerForPlainPath(cs: seq<string>, rules: seq<Rule>, report: bool, directory: bool, dependency: int)
    requires AreNames(cs) && cs != [] && !EndsInFork(cs) && NUL !in Join(cs)
    requires forall c :: c in cs ==> c != "." && c != ".."
    ensures var v := Answer(Some(rules), Join(cs), report, directory, dependency);
            (v.Verdict? && v.allowed <==> directory || Granted(rules, Join(cs), dependency))
            && (v.Aborted? <==> !directory && Unknowable(rules, Join(cs)))
  {
    PlainText(cs);
    PlainIsResolved(cs);
    AnswerForResolution(Join(cs), rules, report, directory, dependency);
  }

  /** The components of a path that is written with single slashes. */
  lemma PlainText(cs: seq<string>)
    requires AreNames(cs) && cs != []
    ensures Join(cs)[0] == '/' && Components(Join(cs)[1..]) == cs && !HasEmptyComponent(Join(cs))
  {
    JoinStarts(cs);
    var s := Join(cs)[1..];
    assert Join(cs) == "/" + s && s == cs[0] + Join(cs[1..]);
    TextOf(cs[0], cs[1..]);
    SeesAllExactly(s);
  }

  lemma {:induction false} TextOf(c: string, cs: seq<string>)
    requires IsName(c) && AreNames(cs)
    ensures Tokens(c + Join(cs)) == Components(c + Join(cs)) == [c] + cs
    decreases |cs|
  {
    if cs == [] {
      assert c + Join(cs) == c + "";
      SpanOfName(c, "");
      assert c + "" == c;
    } else {
      JoinStarts(cs);
      var t := cs[0] + Join(cs[1..]);
      SpanOfName(c, "/" + t);
      assert c + Join(cs) == c + ("/" + t);
      assert (c + ("/" + t))[..|c|] == c && (c + ("/" + t))[|c| + 1..] == t;
      TextOf(cs[0], cs[1..]);
    }
  }

  /** Below the path of a first rule that allows. */
  lemma AllowedBelow(cs: seq<string>, r: Rule, rules: seq<Rule>, report: bool, directory: bool, dependency: int)
    requires AreNames(cs) && cs != [] && !EndsInFork(cs) && NUL !in Join(cs)
    requires forall c :: c in cs ==> c != "." && c != ".."
    requires r.path + "/" <= Join(cs) && r.command == FILEMAP_ALLOW
    ensures Answer(Some([r] + rules), Join(cs), report, directory, dependency) == Verdict(true, Silent)
  {
    PlainText(cs);
    PlainIsResolved(cs);
    ResolutionIsShown(Join(cs));
    FirstRuleAllows(r, rules, Join(cs), dependency);
  }

  /** "/usr/lib/libz" under the rules "/usr/lib" allow, then "/usr" deny: allowed. */
  lemma LibraryIsAllowed(dependency: int)
    ensures Answer(Some([Rule("/usr/lib", FILEMAP_ALLOW)] + [Rule("/usr", FILEMAP_DENY)]), "/usr/lib/libz", true, false, dependency)
            == Verdict(true, Silent)
  {
    LibraryText();
    AllowedBelow(["usr", "lib", "libz"], Rule("/usr/lib", FILEMAP_ALLOW), [Rule("/usr", FILEMAP_DENY)], true, false, dependency);
  }

  lemma LibraryText()
    ensures Join(["usr", "lib", "libz"]) == "/usr/lib/libz" && "/usr/lib" + "/" <= "/usr/lib/libz"
  {
    var cs := ["usr", "lib", "libz"];
    assert cs[1..] == ["lib", "libz"] && ["lib", "libz"][1..] == ["libz"] && ["libz"][1..] == [];
    assert Join(["libz"]) == "/libz" && Join(["lib", "libz"]) == "/lib/libz";
  }

  lemma FirstRuleAllows(r: Rule, rules: seq<Rule>, path: string, dependency: int)
    requires r.path + "/" <= path && r.command == FILEMAP_ALLOW
    ensures Judgement([r] + rules, path, dependency) == Verdict(true, Silent)
  {
    assert ([r] + rules)[0] == r && Stops(r, path);
  }

  // ---------------------------------------------------------------- reports, commands and the serialized form

  /** What is reported, for paths other than the root and admitted directories: a violation exactly when access is
      denied, an unknown file exactly when a rule asks and the file is in no port; nothing without DT_REPORT. */
  lemma ReportsExactly(rules: seq<Rule>, path: string, report: bool, dependency: int)
    requires path != "/"
    ensures var v := Checked(rules, path, report, false, dependency);
            v.Verdict? ==>
              (v.report == Violation <==> report && !v.allowed)
              && (v.report == Unknown <==> report && dependency == -1 && exists k: nat :: EndsAt(rules, path, k) && rules[k].command == FILEMAP_ASK)
  {
    EndIsStop(rules, path);
  }

  /** The commands, as bytes: allow is 0, redirect 1, ask 2, deny 3. */
  lemma CommandBytes()
    ensures FILEMAP_ALLOW as int == 0 && FILEMAP_REDIR as int == 1 && FILEMAP_ASK as int == 2 && FILEMAP_DENY as int == 3
  {}

  /** The serialized form: each path with a terminator, its command and another terminator; one more at the end. */
  lemma SerializedText(rules: seq<Rule>, path: string, command: char)
    ensures Serialize([]) == [0 as char]
    ensures Serialize([Rule(path, command)] + rules) == path + [0 as char] + [command] + [0 as char] + Serialize(rules)
  {
    assert ([Rule(path, command)] + rules)[1..] == rules;
    assert path + [0 as char] + [command] + [0 as char] == path + [NUL, command, NUL];
  }
}
