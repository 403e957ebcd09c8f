/** The string operations repolist.rb leans on: the `\s` search in Repos.new,
    String#strip, the name pattern of the create route, File.basename and
    File.join, and Array#join("\n") for the operation log. */
module Text {
  import opened Results

  /** Ruby's `\s`: space, tab, line feed, vertical tab, form feed, carriage return. */
  predicate IsSpace(c: char) {
    c == ' ' || c == '\t' || c == '\n' || c == '\U{B}' || c == '\U{C}' || c == '\r'
  }

  /** What String#strip removes at either end: Ruby's whitespace and NUL. */
  predicate IsBlank(c: char) {
    IsSpace(c) || c == '\0'
  }

  /** The index `s =~ /\s/` yields: the first whitespace character, or nil. */
  function FirstSpace(s: string): (r: Option<nat>)
    ensures r.Some? ==> r.value < |s| && IsSpace(s[r.value])
    ensures r.Some? ==> forall j :: 0 <= j < r.value ==> !IsSpace(s[j])
    ensures r.None? <==> forall j :: 0 <= j < |s| ==> !IsSpace(s[j])
  {
    if s == [] then None
    else if IsSpace(s[0]) then Some(0)
    else match FirstSpace(s[1..])
      case None => None
      case Some(k) => Some(k + 1)
  }

  predicate HasSpace(s: string) {
    FirstSpace(s).Some?
  }

  predicate IsNameChar(c: char) {
    'a' <= c <= 'z' || '0' <= c <= '9' || c == '-'
  }

  /** Whether `s =~ /\A[a-z\d-]+\z/` matches: one or more lower-case letters, digits or dashes. */
  function MatchesName(s: string): (r: bool)
    ensures r <==> |s| > 0 && forall i :: 0 <= i < |s| ==> IsNameChar(s[i])
  {
    |s| > 0 && IsNameChar(s[0]) && (|s| == 1 || MatchesName(s[1..]))
  }

  /** A name the create route accepts holds no whitespace and no path separator. */
  lemma NameIsPlain(n: string)
    requires MatchesName(n)
    ensures !HasSpace(n)
    ensures forall i :: 0 <= i < |n| ==> n[i] != '/'
  {
    forall i | 0 <= i < |n| ensures !IsSpace(n[i]) && n[i] != '/' {
      assert IsNameChar(n[i]);
    }
  }

  // ---------------------------------------------------------------- strip

  function LeadingBlanks(s: string): (k: nat)
    ensures k <= |s|
    ensures forall i :: 0 <= i < k ==> IsBlank(s[i])
    ensures k < |s| ==> !IsBlank(s[k])
  {
    if s == [] || !IsBlank(s[0]) then 0 else 1 + LeadingBlanks(s[1..])
  }

  function TrailingBlanks(s: string): (k: nat)
    ensures k <= |s|
    ensures forall i :: |s| - k <= i < |s| ==> IsBlank(s[i])
    ensures k < |s| ==> !IsBlank(s[|s| - 1 - k])
  {
    if s == [] || !IsBlank(s[|s| - 1]) then 0 else 1 + TrailingBlanks(s[..|s| - 1])
  }

  /** String#strip: drops every blank at the start and at the end. */
  function Strip(s: string): (r: string)
    ensures |r| <= |s|
    ensures r == [] || (!IsBlank(r[0]) && !IsBlank(r[|r| - 1]))
  {
    var lead := LeadingBlanks(s);
    var rest := s[lead..];
    rest[..|rest| - TrailingBlanks(rest)]
  }

  /** What strip leaves: an infix of `s` that neither starts nor ends with a
      blank, with only blanks around it. */
  lemma StripShape(s: string)
    ensures var r := Strip(s);
      && (r == [] || (!IsBlank(r[0]) && !IsBlank(r[|r| - 1])))
      && |r| <= |s| - LeadingBlanks(s)
      && r == s[LeadingBlanks(s)..LeadingBlanks(s) + |r|]
      && forall i :: 0 <= i < |s| && !(LeadingBlanks(s) <= i < LeadingBlanks(s) + |r|) ==> IsBlank(s[i])
  {
    var lead := LeadingBlanks(s);
    var rest := s[lead..];
    var trail := TrailingBlanks(rest);
    var r := rest[..|rest| - trail];
    assert r == s[lead..lead + |r|];
    forall i | 0 <= i < |s| && !(lead <= i < lead + |r|)
      ensures IsBlank(s[i])
    {
      if i >= lead {
        assert s[i] == rest[i - lead];
      }
    }
  }

  /** Stripping twice is stripping once. */
  lemma StripIdempotent(s: string)
    ensures Strip(Strip(s)) == Strip(s)
  {
    StripShape(s);
    var r := Strip(s);
    assert LeadingBlanks(r) == 0;
    assert TrailingBlanks(r) == 0;
  }

  /** A valid repository name is left as it is by strip. */
  lemma StripKeepsName(n: string)
    requires MatchesName(n)
    ensures Strip(n) == n
  {
    StripShape(n);
    assert IsNameChar(n[0]) && IsNameChar(n[|n| - 1]);
    assert LeadingBlanks(n) == 0;
    assert TrailingBlanks(n) == 0;
  }

  // ------------------------------------------------------------ basename

  function TrimTrailingSlashes(s: string): (r: string)
    ensures |r| <= |s| && r == s[..|r|]
    ensures r == [] || r[|r| - 1] != '/'
    ensures forall i :: |r| <= i < |s| ==> s[i] == '/'
  {
    if s == [] || s[|s| - 1] != '/' then s else TrimTrailingSlashes(s[..|s| - 1])
  }

  function LastSegment(s: string): (r: string)
    ensures |r| <= |s| && r == s[|s| - |r|..]
    ensures forall i :: 0 <= i < |r| ==> r[i] != '/'
    ensures |r| < |s| ==> s[|s| - |r| - 1] == '/'
  {
    if s == [] || s[|s| - 1] == '/' then [] else LastSegment(s[..|s| - 1]) + [s[|s| - 1]]
  }

  /** File.basename: the last segment once trailing slashes are ignored;
      "/" for a path made only of slashes. */
  function Basename(p: string): (r: string)
    ensures p != [] ==> r != []
    ensures r == "/" || forall i :: 0 <= i < |r| ==> r[i] != '/'
  {
    var t := TrimTrailingSlashes(p);
    if t == [] then (if p == [] then [] else "/") else LastSegment(t)
  }

  /** File.join of two parts. When `b` starts with '/', the trailing slashes of
      `a` are dropped and `b` follows whole; otherwise a '/' goes between them
      unless `a` already ends in one, whose slashes are then all kept. */
  function PathJoin(a: string, b: string): (r: string)
    ensures '/' in r
    ensures TrimTrailingSlashes(a) <= r
    ensures |b| <= |r| && r[|r| - |b|..] == b
  {
    if b != [] && b[0] == '/' then TrimTrailingSlashes(a) + b
    else if a != [] && a[|a| - 1] == '/' then a + b
    else a + "/" + b
  }

  /** The last segment of a path that ends in a slash followed by a plain name is that name. */
  lemma LastSegmentAfterSlash(pre: string, n: string)
    requires pre != [] && pre[|pre| - 1] == '/'
    requires forall i :: 0 <= i < |n| ==> n[i] != '/'
    ensures LastSegment(pre + n) == n
  {
    var p := pre + n;
    assert p[|pre|..] == n;
  }

  /** File.join of a part that does not start with '/' puts it after a prefix ending in '/'. */
  lemma JoinAfterSlash(root: string, n: string) returns (pre: string)
    requires n != [] && n[0] != '/'
    ensures pre != [] && pre[|pre| - 1] == '/'
    ensures PathJoin(root, n) == pre + n
  {
    if root != [] && root[|root| - 1] == '/' {
      pre := root;
    } else {
      pre := root + "/";
    }
  }

  /** Joining a valid name onto a directory and taking the basename gives the name back. */
  lemma BasenameOfJoin(root: string, n: string)
    requires MatchesName(n)
    ensures Basename(PathJoin(root, n)) == n
  {
    NameIsPlain(n);
    var pre := JoinAfterSlash(root, n);
    var p := pre + n;
    assert p[|p| - 1] == n[|n| - 1] != '/';
    assert TrimTrailingSlashes(p) == p;
    LastSegmentAfterSlash(pre, n);
  }

  /** With no whitespace in the root, a valid name makes a path Repos.new accepts. */
  lemma JoinedNameHasNoSpace(root: string, n: string)
    requires !HasSpace(root) && MatchesName(n)
    ensures !HasSpace(PathJoin(root, n))
  {
    NameIsPlain(n);
    var p := PathJoin(root, n);
    forall i | 0 <= i < |p| ensures !IsSpace(p[i]) {
      if i >= |p| - |n| {
        assert p[i] == n[i - (|p| - |n|)];
      } else if i < |root| {
        assert p[i] == root[i];
      } else {
        assert p[i] == '/';
      }
    }
  }

  // ------------------------------------------------------------ log text

  /** Array#join("\n"). */
  function JoinLines(xs: seq<string>): (r: string)
    ensures xs != [] ==> xs[0] <= r
  {
    if xs == [] then "" else if |xs| == 1 then xs[0] else xs[0] + "\n" + JoinLines(xs[1..])
  }

  /** Cutting a text at every line feed; the inverse of JoinLines on one-line entries. */
  function SplitLines(s: string): (r: seq<string>)
    ensures |r| >= 1
  {
    if s == [] then [""]
    else
      var rest := SplitLines(s[1..]);
      if s[0] == '\n' then [""] + rest else [[s[0]] + rest[0]] + rest[1..]
  }

  predicate SingleLine(s: string) {
    forall i :: 0 <= i < |s| ==> s[i] != '\n'
  }

  lemma {:induction false} SplitOneLine(a: string)
    requires SingleLine(a)
    ensures SplitLines(a) == [a]
  {
    if a != [] {
      SplitOneLine(a[1..]);
      assert [a[0]] + a[1..] == a;
    }
  }

  lemma {:induction false} SplitAfterLine(a: string, b: string)
    requires SingleLine(a)
    ensures SplitLines(a + "\n" + b) == [a] + SplitLines(b)
  {
    if a == [] {
      assert a + "\n" + b == "\n" + b;
      assert ("\n" + b)[1..] == b;
    } else {
      SplitAfterLine(a[1..], b);
      assert (a + "\n" + b)[1..] == a[1..] + "\n" + b;
      assert [a[0]] + a[1..] == a;
    }
  }

  /** The joined log can be cut back into its entries when no entry spans lines. */
  lemma {:induction false} SplitJoin(xs: seq<string>)
    requires xs != []
    requires forall i :: 0 <= i < |xs| ==> SingleLine(xs[i])
    ensures SplitLines(JoinLines(xs)) == xs
  {
    if |xs| == 1 {
      SplitOneLine(xs[0]);
    } else {
      SplitJoin(xs[1..]);
      SplitAfterLine(xs[0], JoinLines(xs[1..]));
    }
  }

  /** SplitJoin as an implication, for any log: it holds whenever the log is
      not empty and no entry spans lines. */
  lemma LogRoundTrip(xs: seq<string>)
    ensures xs != [] && (forall i :: 0 <= i < |xs| ==> SingleLine(xs[i])) ==> SplitLines(JoinLines(xs)) == xs
  {
    if xs != [] && forall i :: 0 <= i < |xs| ==> SingleLine(xs[i]) {
      SplitJoin(xs);
    }
  }

  /** Logging one more entry extends the joined text by a line feed and the entry. */
  lemma {:induction false} JoinAppend(xs: seq<string>, x: string)
    ensures JoinLines(xs + [x]) == if xs == [] then x else JoinLines(xs) + "\n" + x
  {
    if |xs| > 1 {
      JoinAppend(xs[1..], x);
      assert (xs + [x])[1..] == xs[1..] + [x];
    } else if |xs| == 1 {
      assert (xs + [x])[1..] == [x];
    }
  }
}
