/** Names on disk: the output directory derived from the root URL, the file
    name derived from a page's path, and the numbered names tried when that
    file name is already taken. */
module Naming {
  import opened Strings

  /** `root_url.replace("https://", "").replace(".", "_")`. */
  function OutputDirName(rootUrl: string): string
  {
    ReplaceAll(ReplaceAll(rootUrl, "https://", ""), ".", "_")
  }

  /** Every `.` of `s` turned into `_`, position by position. */
  function DotsToUnderscores(s: string): (r: string)
  {
    seq(|s|, i requires 0 <= i < |s| => if s[i] == '.' then '_' else s[i])
  }

  /** For an `https://` root whose remainder never repeats `https://`, the
      directory name is that remainder with its dots made underscores; in
      particular it contains no dot. */
  lemma OutputDirOfHttpsRoot(host: string)
    requires forall i: nat :: !OccursAt(host, "https://", i)
    ensures OutputDirName("https://" + host) == DotsToUnderscores(host)
    ensures forall i :: 0 <= i < |OutputDirName("https://" + host)| ==>
              OutputDirName("https://" + host)[i] != '.'
  {
    var s := "https://" + host;
    assert s[..8] == "https://";
    assert s[8..] == host;
    ReplaceAbsent(host, "https://", "");
    assert ReplaceAll(s, "https://", "") == host;
    ReplaceCharPointwise(host, '.', '_');
    assert ReplaceAll(host, ".", "_") == ReplaceAll(host, ['.'], ['_']);
  }

  /** A host without a colon (no port, no second scheme) meets the condition
      above, so its directory name is the host with underscores for dots. */
  lemma OutputDirOfPlainHost(host: string)
    requires forall j :: 0 <= j < |host| ==> host[j] != ':'
    ensures OutputDirName("https://" + host) == DotsToUnderscores(host)
  {
    AbsentChar(host, "https://", 5);
    OutputDirOfHttpsRoot(host);
  }

  /** `replace` drops every `https://`, not only a leading one, so an `http://`
      root with no `https://` anywhere keeps its scheme, colon and slashes in
      the directory name, and only its dots change. */
  lemma HttpRootKeepsScheme(host: string)
    requires forall i: nat :: !OccursAt("http://" + host, "https://", i)
    ensures OutputDirName("http://" + host) == "http://" + DotsToUnderscores(host)
  {
    var s := "http://" + host;
    ReplaceAbsent(s, "https://", "");
    ReplaceCharPointwise(s, '.', '_');
    assert ReplaceAll(s, ".", "_") == ReplaceAll(s, ['.'], ['_']);
    var r := ReplaceAll(s, ".", "_");
    forall i | 0 <= i < |r|
      ensures r[i] == ("http://" + DotsToUnderscores(host))[i]
    {
      if i >= 7 {
        assert s[i] == host[i - 7];
      }
    }
  }

  predicate IsSlash(c: char) {
    c == '/'
  }

  /** The underscore stand-in for a path separator. */
  function Sanitize(c: char): char {
    if c == '/' || c == '\\' then '_' else c
  }

  /** No path separator occurs in `s`. */
  predicate IsPlainName(s: string) {
    forall i :: 0 <= i < |s| ==> s[i] != '/' && s[i] != '\\'
  }

  /** `path.strip('/')`, `index` when that is empty, then `/` and `\` replaced by `_`. */
  function SafeName(path: string): string
  {
    var p := Trim(path, IsSlash);
    var q := if p == "" then "index" else p;
    ReplaceAll(ReplaceAll(q, "/", "_"), "\\", "_")
  }

  /** The base name never holds a path separator; a path made of slashes only
      (or nothing) becomes `index`; any other path keeps its characters, each
      separator inside it turned into `_`, after its outer slashes are stripped. */
  lemma SafeNameShape(path: string)
    ensures IsPlainName(SafeName(path))
    ensures (forall i :: 0 <= i < |path| ==> path[i] == '/') ==> SafeName(path) == "index"
    ensures var p := Trim(path, IsSlash);
            p != "" ==> |SafeName(path)| == |p| &&
                        forall i :: 0 <= i < |p| ==> SafeName(path)[i] == Sanitize(p[i])
  {
    var p := Trim(path, IsSlash);
    var q := if p == "" then "index" else p;
    assert ReplaceAll(q, "/", "_") == ReplaceAll(q, ['/'], ['_']);
    ReplaceCharPointwise(q, '/', '_');
    var q1 := ReplaceAll(q, "/", "_");
    assert ReplaceAll(q1, "\\", "_") == ReplaceAll(q1, ['\\'], ['_']);
    ReplaceCharPointwise(q1, '\\', '_');
    if forall i :: 0 <= i < |path| ==> path[i] == '/' {
      var k := TrimIsMaximalSlice(path, IsSlash);
      assert q == "index";
      assert q1 == q;
    }
  }

  /** The `k`-th name tried for base name `safe`: `safe.md`, then `safe_1.md`,
      `safe_2.md`, and so on. */
  function Candidate(safe: string, k: nat): string
  {
    if k == 0 then safe + ".md" else safe + "_" + Decimal(k) + ".md"
  }

  /** Different attempts give different names, so probing never repeats itself. */
  lemma CandidateInjective(safe: string, j: nat, k: nat)
    requires Candidate(safe, j) == Candidate(safe, k)
    ensures j == k
  {
    if j != 0 && k != 0 {
      var x := Candidate(safe, j);
      var dj, dk := Decimal(j), Decimal(k);
      assert |dj| == |dk|;
      assert x[|safe| + 1..|safe| + 1 + |dj|] == dj;
      assert x[|safe| + 1..|safe| + 1 + |dk|] == dk;
      DecimalInjective(j, k);
    }
  }

  lemma PlainNameConcat(a: string, b: string)
    requires IsPlainName(a) && IsPlainName(b)
    ensures IsPlainName(a + b)
  {
    forall i | 0 <= i < |a + b|
      ensures (a + b)[i] != '/' && (a + b)[i] != '\\'
    {
      if i >= |a| {
        assert (a + b)[i] == b[i - |a|];
      }
    }
  }

  lemma SubsetCardinality<T>(a: set<T>, b: set<T>)
    requires a <= b
    ensures |a| <= |b|
  {
    assert b == a + (b - a);
  }

  /** A candidate built on a base name without separators (which `SafeName`
      always gives) holds none either, so it names a file directly inside the
      output directory. */
  lemma CandidateIsPlainName(safe: string, k: nat)
    requires IsPlainName(safe)
    ensures IsPlainName(Candidate(safe, k))
  {
    assert IsPlainName(".md");
    if k == 0 {
      PlainNameConcat(safe, ".md");
    } else {
      var d := Decimal(k);
      assert IsPlainName(d);
      assert IsPlainName("_");
      PlainNameConcat(safe, "_");
      PlainNameConcat(safe + "_", d);
      PlainNameConcat(safe + "_" + d, ".md");
    }
  }

  /** The name `save_text` settles on is determined by the directory: there is
      only one first candidate that is not taken. */
  lemma FirstFreeCandidateUnique(safe: string, taken: set<string>, j: nat, k: nat)
    requires Candidate(safe, j) !in taken && forall i :: 0 <= i < j ==> Candidate(safe, i) in taken
    requires Candidate(safe, k) !in taken && forall i :: 0 <= i < k ==> Candidate(safe, i) in taken
    ensures j == k
  {
  }

  /** The names tried so far. */
  function Tried(safe: string, n: nat): set<string>
  {
    set j | 0 <= j < n :: Candidate(safe, j)
  }

  /** Trying one more name adds a name not tried before, so after `n` tries
      exactly `n` distinct names have been looked up; as they were all taken,
      the search cannot go on past the number of files in the directory. */
  lemma {:induction false} TriedGrows(safe: string, n: nat, taken: set<string>)
    requires |Tried(safe, n)| == n
    requires Tried(safe, n) <= taken && Candidate(safe, n) in taken
    ensures Tried(safe, n + 1) == Tried(safe, n) + {Candidate(safe, n)}
    ensures |Tried(safe, n + 1)| == n + 1 <= |taken|
  {
    var c := Candidate(safe, n);
    if c in Tried(safe, n) {
      var j :| 0 <= j < n && Candidate(safe, j) == c;
      CandidateInjective(safe, j, n);
      assert false;
    }
    forall x | x in Tried(safe, n + 1)
      ensures x in Tried(safe, n) + {c}
    {
      var j :| 0 <= j < n + 1 && x == Candidate(safe, j);
      if j < n {
        assert x in Tried(safe, n);
      }
    }
    assert Tried(safe, n + 1) == Tried(safe, n) + {c};
    SubsetCardinality(Tried(safe, n + 1), taken);
  }
}
