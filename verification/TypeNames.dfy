/** Qualified names and the scope search for a type reference (compiler/pipeline.rs). */
module TypeNames {
  import opened Wrappers
  import opened WireBasics
  import opened Utf8

  const DOT: byte := 46

  lemma {:induction false} Utf8Append(a: bytes, b: bytes)
    requires IsUtf8(a) && IsUtf8(b)
    ensures IsUtf8(a + b)
    decreases |a|
  {
    var k := FrontLength(a);
    if a == [] {
      assert a + b == b;
    } else if k != 0 {
      assert FrontLength(a + b) == k;
      Utf8Append(a[k..], b);
      assert (a + b)[k..] == a[k..] + b;
    }
  }

  lemma DotIsUtf8()
    ensures IsUtf8([DOT])
  {
    assert FrontLength([DOT]) == 1;
    assert ValidUpTo([DOT][1..]) == 0;
  }

  function Append(a: Str, b: Str): (r: Str)
    ensures r == a + b
  {
    Utf8Append(a, b);
    a + b
  }

  function Dotted(a: Str): (r: Str)
    ensures r == [DOT] + a
  {
    DotIsUtf8();
    Append([DOT], a)
  }

  predicate Absolute(name: bytes) {
    |name| > 0 && name[0] == DOT
  }

  /** `strip_prefix('.')` */
  function Strip(s: Str): (r: Str)
    ensures s == if Absolute(s) then [DOT] + r else r
  {
    if Absolute(s) then
      assert FrontLength(s) == 1;
      s[1..]
    else s
  }

  /** `qualify`: a fully-qualified name, with one leading dot. */
  function Qualify(prefix: Str, name: Str): (r: Str)
    ensures Absolute(r)
    ensures r == if Strip(prefix) == [] then [DOT] + name else [DOT] + Strip(prefix) + [DOT] + name
  {
    if Strip(prefix) == [] then Dotted(name)
    else
      Assoc([DOT], Strip(prefix), [DOT] + name);
      Assoc([DOT] + Strip(prefix), [DOT], name);
      Dotted(Append(Strip(prefix), Dotted(name)))
  }

  // ------------------------------------------------------------------ splitting at dots

  /** `split('.')` */
  function Split(s: bytes): (parts: seq<bytes>)
    ensures |parts| >= 1
  {
    if |s| == 0 then [[]]
    else
      var rest := Split(s[1..]);
      if s[0] == DOT then [[]] + rest else [[s[0]] + rest[0]] + rest[1..]
  }

  /** `join(".")` */
  function Join(parts: seq<bytes>): bytes {
    if |parts| == 0 then [] else if |parts| == 1 then parts[0] else parts[0] + [DOT] + Join(parts[1..])
  }

  lemma {:induction false} JoinSplit(s: bytes)
    ensures Join(Split(s)) == s
  {
    if |s| != 0 {
      JoinSplit(s[1..]);
      var rest := Split(s[1..]);
      if s[0] == DOT {
        assert ([[]] + rest)[1..] == rest;
        assert [] + [DOT] + s[1..] == s;
      } else {
        var parts := [[s[0]] + rest[0]] + rest[1..];
        assert parts[1..] == rest[1..];
        if |rest| == 1 {
          assert [s[0]] + s[1..] == s;
        } else {
          assert parts[0] + [DOT] + Join(parts[1..]) == [s[0]] + (rest[0] + [DOT] + Join(rest[1..]));
          assert [s[0]] + s[1..] == s;
        }
      }
    }
  }

  predicate NoDot(s: bytes) {
    forall i :: 0 <= i < |s| ==> s[i] != DOT
  }

  lemma {:induction false} SplitNoDot(s: bytes)
    requires NoDot(s)
    ensures Split(s) == [s]
  {
    if |s| != 0 {
      SplitNoDot(s[1..]);
      assert [s[0]] + s[1..] == s;
    }
  }

  /** The first character goes into the first part, or starts a new one. */
  function Prepend(c: byte, parts: seq<bytes>): seq<bytes>
    requires |parts| >= 1
  {
    if c == DOT then [[]] + parts else [[c] + parts[0]] + parts[1..]
  }

  lemma PrependAppend(c: byte, parts: seq<bytes>, more: seq<bytes>)
    requires |parts| >= 1
    ensures Prepend(c, parts + more) == Prepend(c, parts) + more
  {
    assert (parts + more)[1..] == parts[1..] + more;
  }

  lemma {:induction false} SplitAppend(a: bytes, b: bytes)
    ensures Split(a + [DOT] + b) == Split(a) + Split(b)
  {
    var s := a + [DOT] + b;
    if |a| == 0 {
      assert s[1..] == b;
    } else {
      SplitAppend(a[1..], b);
      assert s[1..] == a[1..] + [DOT] + b;
      hide Split, Prepend;
      SplitFirst(s);
      SplitFirst(a);
      PrependAppend(a[0], Split(a[1..]), Split(b));
    }
  }

  lemma SplitFirst(s: bytes)
    requires |s| > 0
    ensures Split(s) == Prepend(s[0], Split(s[1..]))
  {
  }

  // -------------------------------------------------------------------- the scope search

  /** The components of a scope; the package-less scope has none. */
  function Scope(pkg: Str): seq<bytes> {
    if Strip(pkg) == [] then [] else Split(Strip(pkg))
  }

  /** `name` looked up in the scope of the first `i` components. */
  function Candidate(scope: seq<bytes>, i: nat, name: bytes): bytes
    requires i <= |scope|
  {
    if i == 0 then [DOT] + name else [DOT] + Join(scope[..i]) + [DOT] + name
  }

  /** The search from the scope of `i` components outwards. */
  function Search(scope: seq<bytes>, i: nat, name: bytes, visible: set<Str>): (r: Option<Str>)
    requires i <= |scope|
    ensures r.Some? ==> exists k :: 0 <= k <= i && r.value == Candidate(scope, k, name) && r.value in visible
                                    && forall j :: k < j <= i ==> Candidate(scope, j, name) !in visible
    ensures r.None? ==> forall k :: 0 <= k <= i ==> Candidate(scope, k, name) !in visible
  {
    var c := Candidate(scope, i, name);
    if c in visible then Some(c) else if i == 0 then None else Search(scope, i - 1, name, visible)
  }

  /** `resolve_type_name` */
  function Resolve(name: Str, pkg: Str, visible: set<Str>): Option<Str> {
    if Absolute(name) then (if name in visible then Some(name) else None)
    else Search(Scope(pkg), |Scope(pkg)|, name, visible)
  }

  method ResolveTypeName(name: Str, pkg: Str, visible: set<Str>) returns (r: Option<Str>)
    ensures r == Resolve(name, pkg, visible)
  {
    hide Split, Join, Search, IsUtf8, Strip;
    if Absolute(name) {
      return if name in visible then Some(name) else None;
    }
    var parts: seq<bytes> := if Strip(pkg) == [] then [] else Split(Strip(pkg));
    r := SearchOutwards(parts, name, visible);
  }

  /** The loop over the scopes, from the inside out. */
  method SearchOutwards(parts: seq<bytes>, name: Str, visible: set<Str>) returns (r: Option<Str>)
    ensures r == Search(parts, |parts|, name, visible)
  {
    hide Split, Join, Search, IsUtf8;
    var i := |parts|;
    while true
      invariant 0 <= i <= |parts|
      invariant Search(parts, i, name, visible) == Search(parts, |parts|, name, visible)
      decreases i
    {
      SearchTurn(parts, i, name, visible);
      var prefix := parts[..i];
      var candidate := if prefix == [] then [DOT] + name else [DOT] + Join(prefix) + [DOT] + name;
      if candidate in visible { return Some(candidate); }
      if i == 0 { return None; }
      i := i - 1;
    }
  }

  lemma SearchTurn(scope: seq<bytes>, i: nat, name: bytes, visible: set<Str>)
    requires i <= |scope|
    ensures var c := Candidate(scope, i, name);
            Search(scope, i, name, visible)
            == if c in visible then Some(c) else if i == 0 then None else Search(scope, i - 1, name, visible)
  {
    hide Candidate, IsUtf8;
  }

  /**
   * The result is the visible candidate of the innermost scope: for a relative name, the one with the most
   * components such that no longer one is visible; there is a result exactly when some candidate is visible.
   */
  lemma ResolveMeaning(name: Str, pkg: Str, visible: set<Str>, c: Str)
    requires !Absolute(name)
    ensures Resolve(name, pkg, visible) == Some(c) <==>
            c in visible && exists k :: 0 <= k <= |Scope(pkg)| && c == Candidate(Scope(pkg), k, name)
                                        && forall j :: k < j <= |Scope(pkg)| ==> Candidate(Scope(pkg), j, name) !in visible
  {
    var scope := Scope(pkg);
    if c in visible && exists k :: 0 <= k <= |scope| && c == Candidate(scope, k, name)
                                   && forall j :: k < j <= |scope| ==> Candidate(scope, j, name) !in visible {
      var k :| 0 <= k <= |scope| && c == Candidate(scope, k, name)
               && forall j :: k < j <= |scope| ==> Candidate(scope, j, name) !in visible;
      SearchSkips(scope, |scope|, k, name, visible);
    }
  }

  lemma {:induction false} SearchSkips(scope: seq<bytes>, i: nat, k: nat, name: bytes, visible: set<Str>)
    requires k <= i <= |scope| && Candidate(scope, k, name) in visible
    requires forall j :: k < j <= i ==> Candidate(scope, j, name) !in visible
    ensures Search(scope, i, name, visible) == Some(Candidate(scope, k, name))
  {
    if i != k { SearchSkips(scope, i - 1, k, name, visible); }
  }

  /** The innermost candidate is the name qualified by the scope itself, the outermost the bare name. */
  lemma CandidateIsQualified(name: Str, pkg: Str)
    ensures Candidate(Scope(pkg), |Scope(pkg)|, name) == Qualify(pkg, name)
    ensures Candidate(Scope(pkg), 0, name) == Qualify([], name)
  {
    var scope := Scope(pkg);
    assert scope[..|scope|] == scope;
    JoinSplit(Strip(pkg));
  }

  lemma ResolvedIsVisible(name: Str, pkg: Str, visible: set<Str>)
    ensures var r := Resolve(name, pkg, visible); r.Some? ==> r.value in visible && Absolute(r.value)
  {
  }

  /** A resolved name resolves to itself, whatever the scope. */
  lemma ResolveTwice(name: Str, pkg: Str, visible: set<Str>, pkg': Str)
    requires Resolve(name, pkg, visible).Some?
    ensures var r := Resolve(name, pkg, visible); Resolve(r.value, pkg', visible) == r
  {
    ResolvedIsVisible(name, pkg, visible);
  }

  /** What stands before the last dot of a qualified name. */
  function Lead(prefix: Str): bytes {
    if Strip(prefix) == [] then [] else [DOT] + Strip(prefix)
  }

  lemma LastDot(a: bytes, m: bytes, b: bytes, n: bytes)
    requires NoDot(m) && NoDot(n) && a + [DOT] + m == b + [DOT] + n
    ensures a == b && m == n
  {
    var s := a + [DOT] + m;
    assert s[|a|] == DOT && s[|b|] == DOT;
    assert a == s[..|a|] == b;
    assert m == s[|a| + 1..] == n;
  }

  lemma QualifiedParts(prefix: Str, name: Str)
    ensures Qualify(prefix, name) == Lead(prefix) + [DOT] + name
    ensures Strip(prefix) == if |Lead(prefix)| == 0 then [] else Lead(prefix)[1..]
  {
    hide Strip, IsUtf8;
  }

  /**
   * Qualifying loses nothing: names without a dot get the same qualified name only in the same scope, a leading dot
   * of the scope aside.
   */
  lemma QualifyInjective(p: Str, m: Str, q: Str, n: Str)
    requires NoDot(m) && NoDot(n)
    ensures Qualify(p, m) == Qualify(q, n) <==> Strip(p) == Strip(q) && m == n
  {
    hide Strip, NoDot, Qualify, Lead, IsUtf8;
    QualifiedParts(p, m);
    QualifiedParts(q, n);
    if Qualify(p, m) == Qualify(q, n) { LastDot(Lead(p), m, Lead(q), n); }
  }

  /** Inside a message the scope has one component more. */
  lemma ScopeOfMessage(pkg: Str, message: Str)
    requires NoDot(message) && message != []
    ensures Scope(Qualify(pkg, message)) == Scope(pkg) + [message]
  {
    var self := Qualify(pkg, message);
    SplitNoDot(message);
    if Strip(pkg) == [] {
      assert Strip(self) == message;
    } else {
      Assoc([DOT], Strip(pkg), [DOT] + message);
      Assoc(Strip(pkg), [DOT], message);
      assert self == [DOT] + (Strip(pkg) + [DOT] + message);
      assert Strip(self) == Strip(pkg) + [DOT] + message;
      SplitAppend(Strip(pkg), message);
    }
  }

  lemma {:induction false} SearchOuter(scope: seq<bytes>, inner: seq<bytes>, i: nat, name: bytes, visible: set<Str>)
    requires i <= |scope|
    ensures Search(scope + inner, i, name, visible) == Search(scope, i, name, visible)
  {
    hide Join;
    assert (scope + inner)[..i] == scope[..i];
    if i != 0 { SearchOuter(scope, inner, i - 1, name, visible); }
  }

  /**
   * The original looks a field's type up in the scope around the message. The scope of the message itself would give
   * another answer exactly when it has a visible type of that name.
   */
  lemma ParentScopeDiffers(pkg: Str, message: Str, name: Str, visible: set<Str>)
    requires NoDot(message) && message != [] && !Absolute(name)
    ensures var own := Qualify(Qualify(pkg, message), name);
            Resolve(name, Qualify(pkg, message), visible) ==
            if own in visible then Some(own) else Resolve(name, pkg, visible)
  {
    ScopeOfMessage(pkg, message);
    CandidateIsQualified(name, Qualify(pkg, message));
    SearchOuter(Scope(pkg), [message], |Scope(pkg)|, name, visible);
  }

  // ------------------------------------------------------------------- names as they are spelled

  /** Names with a full stop between them. */
  function Dots(parts: seq<bytes>): bytes {
    if |parts| == 0 then [] else if |parts| == 1 then parts[0] else parts[0] + [46] + Dots(parts[1..])
  }

  predicate Plain(parts: seq<bytes>) {
    forall i :: 0 <= i < |parts| ==> |parts[i]| > 0 && 46 !in parts[i]
  }

  lemma {:induction false} DotsSplit(parts: seq<bytes>)
    requires Plain(parts) && |parts| > 0
    ensures Split(Dots(parts)) == parts && |Dots(parts)| > 0 && Dots(parts)[0] != 46
  {
    hide Split;
    SplitNoDot(parts[0]);
    if |parts| == 1 {
      assert parts == [parts[0]];
    } else {
      DotsSplit(parts[1..]);
      SplitAppend(parts[0], Dots(parts[1..]));
      assert [parts[0]] + parts[1..] == parts;
    }
  }

  lemma ScopeSpelled(parts: seq<bytes>, pkg: Str)
    requires Plain(parts) && (pkg == Dots(parts) || pkg == [46] + Dots(parts))
    ensures Scope(pkg) == parts && Strip(pkg) == Dots(parts)
  {
    hide Split, IsUtf8;
    if |parts| > 0 { DotsSplit(parts); }
    assert Strip(pkg) == Dots(parts) by {
      if pkg == Dots(parts) { assert !Absolute(pkg); } else { assert [DOT] + Strip(pkg) == [DOT] + Dots(parts); SameRest(Strip(pkg), Dots(parts)); }
    }
  }

  lemma SameRest(a: bytes, b: bytes)
    requires [DOT] + a == [DOT] + b
    ensures a == b
  {
    assert a == ([DOT] + a)[1..];
  }

  lemma {:induction false} DotsIsJoin(parts: seq<bytes>)
    ensures Dots(parts) == Join(parts)
  {
    if |parts| > 1 { DotsIsJoin(parts[1..]); }
  }

  lemma {:induction false} DotsSnoc(parts: seq<bytes>, name: bytes)
    ensures Dots(parts + [name]) == if |parts| == 0 then name else Dots(parts) + [46] + name
  {
    if |parts| == 0 {
      assert parts + [name] == [name];
    } else {
      assert (parts + [name])[1..] == parts[1..] + [name];
      DotsSnoc(parts[1..], name);
      if |parts| > 1 { Assoc(parts[0] + [46], Dots(parts[1..]) + [46], name); Assoc(parts[0] + [46], Dots(parts[1..]), [46]); }
    }
  }

  lemma CandidateSpelled(parts: seq<bytes>, k: nat, name: bytes)
    requires k <= |parts|
    ensures Candidate(parts, k, name) == [46] + Dots(parts[..k] + [name])
  {
    DotsSnoc(parts[..k], name);
    DotsIsJoin(parts[..k]);
    if k > 0 {
      Assoc([46], Join(parts[..k]), [46]);
      Assoc([46], Join(parts[..k]) + [46], name);
    }
  }

  /** A qualified name, in a package given with or without a leading full stop. */
  lemma QualifySpelled(parts: seq<bytes>, pkg: Str, name: Str)
    requires Plain(parts) && (pkg == Dots(parts) || pkg == [46] + Dots(parts))
    ensures Qualify(pkg, name) == [46] + Dots(parts + [name])
  {
    hide Split, IsUtf8, Plain;
    ScopeSpelled(parts, pkg);
    CandidateIsQualified(name, pkg);
    CandidateSpelled(parts, |parts|, name);
    assert parts[..|parts|] == parts;
  }

  /**
   * The search for a name in the scope `parts`: a name that starts with a full stop is itself or nothing; another one is
   * the visible name behind the most parts, or nothing when no such name is visible.
   */
  lemma ResolveSpelled(parts: seq<bytes>, pkg: Str, name: Str, visible: set<Str>)
    requires Plain(parts) && (pkg == Dots(parts) || pkg == [46] + Dots(parts))
    ensures |name| > 0 && name[0] == 46 ==> Resolve(name, pkg, visible) == if name in visible then Some(name) else None
    ensures !(|name| > 0 && name[0] == 46) ==>
              match Resolve(name, pkg, visible)
              case Some(c) =>
                exists k :: 0 <= k <= |parts| && c == [46] + Dots(parts[..k] + [name]) && c in visible
                            && forall j :: k < j <= |parts| ==> [46] + Dots(parts[..j] + [name]) !in visible
              case None => forall j :: 0 <= j <= |parts| ==> [46] + Dots(parts[..j] + [name]) !in visible
  {
    hide Split, IsUtf8, Plain, Candidate, Dots, Strip;
    ScopeSpelled(parts, pkg);
    forall k | 0 <= k <= |parts|
      ensures Candidate(parts, k, name) == [46] + Dots(parts[..k] + [name])
    {
      CandidateSpelled(parts, k, name);
    }
  }
}
