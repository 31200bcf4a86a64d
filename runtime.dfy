/** The parts of the PHP runtime and of the framework that the STI layer leans on:
    nullable values, qualified class names with their short name and namespace,
    and the table of declared classes with their parents (get_parent_class,
    class_exists, is_subclass_of). */
module Runtime {

  datatype Option<+T> = None | Some(value: T)

  /** What a PHP method either returns or throws. */
  datatype Result<+T, +E> = Success(value: T) | Failure(error: E)

  /** An attribute or column value: SQL NULL, or a scalar in the string form that
      PHP string concatenation gives it. */
  datatype Value = Null | Scalar(text: string)

  /** A fully qualified PHP class name such as "app\\models\\Dog". */
  type ClassName = string

  const Separator: char := '\\'

  predicate IsSuffix(s: string, t: string) {
    |s| <= |t| && s == t[|t| - |s|..]
  }

  /** r is the part of c after its last namespace separator: a separator-free
      suffix of c that is either all of c or preceded by a separator. */
  ghost predicate IsShortNameOf(r: string, c: ClassName) {
    Separator !in r && IsSuffix(r, c) && (|r| < |c| ==> c[|c| - |r| - 1] == Separator)
  }

  /** There is only one such part. */
  lemma ShortNameUnique(r: string, s: string, c: ClassName)
    requires IsShortNameOf(r, c) && IsShortNameOf(s, c)
    ensures r == s
  {
    if |r| < |s| {
      LongerSuffixCrossesSeparator(r, s, c);
      assert false;
    } else if |s| < |r| {
      LongerSuffixCrossesSeparator(s, r, c);
      assert false;
    }
  }

  /** A suffix of c longer than its short name reaches back over a separator. */
  lemma LongerSuffixCrossesSeparator(r: string, s: string, c: ClassName)
    requires IsShortNameOf(r, c) && IsSuffix(s, c) && |r| < |s|
    ensures Separator in s
  {
    assert s[|s| - |r| - 1] == c[|c| - |r| - 1];
  }

  /** The index of the last separator in c, or -1 when there is none. */
  function LastSeparator(c: ClassName): (r: int)
    ensures -1 <= r < |c|
    decreases |c|
  {
    if c == [] then -1
    else if c[|c| - 1] == Separator then |c| - 1
    else LastSeparator(c[..|c| - 1])
  }

  lemma {:induction false} LastSeparatorIsLast(c: ClassName)
    ensures LastSeparator(c) >= 0 ==> c[LastSeparator(c)] == Separator
    ensures forall i :: LastSeparator(c) < i < |c| ==> c[i] != Separator
    decreases |c|
  {
    if c != [] && c[|c| - 1] != Separator {
      LastSeparatorIsLast(c[..|c| - 1]);
    }
  }

  /** The class name without its namespace (StringHelper::basename on a class
      name); ShortNameSpec states what it is. */
  function ShortName(c: ClassName): string {
    c[LastSeparator(c) + 1..]
  }

  /** The short name is the part of c after its last separator, and it is shorter
      than c exactly when c has a namespace. */
  lemma ShortNameSpec(c: ClassName)
    ensures IsShortNameOf(ShortName(c), c)
    ensures Separator in c <==> |ShortName(c)| < |c|
  {
    LastSeparatorIsLast(c);
    SuffixAfterLastSeparator(c, LastSeparator(c));
    HasSeparatorIff(c, LastSeparator(c));
  }

  /** The part of c after a separator at k (or after k == -1), when no separator
      follows k, is its short name. */
  lemma SuffixAfterLastSeparator(c: ClassName, k: int)
    requires -1 <= k < |c| && (k >= 0 ==> c[k] == Separator)
    requires forall i :: k < i < |c| ==> c[i] != Separator
    ensures IsShortNameOf(c[k + 1..], c)
  {
    assert Separator !in c[k + 1..];
    assert |c| - |c[k + 1..]| == k + 1;
  }

  /** With k the last separator (or -1), c has a separator exactly when k >= 0. */
  lemma HasSeparatorIff(c: ClassName, k: int)
    requires -1 <= k < |c| && (k >= 0 ==> c[k] == Separator)
    requires forall i :: k < i < |c| ==> c[i] != Separator
    ensures Separator in c <==> k >= 0
  {
    if k >= 0 {
      assert c[k] in c;
    }
  }

  /** ReflectionClass::getNamespaceName: everything before the last separator,
      or the empty string for a class in the global namespace. */
  function NamespaceOf(c: ClassName): (r: string)
    ensures Separator in c ==> r + [Separator] + ShortName(c) == c
    ensures Separator !in c ==> r == []
  {
    ShortNameSpec(c);
    var n := |ShortName(c)|;
    if n < |c| then
      var r := c[..|c| - n - 1];
      assert r + [Separator] + ShortName(c) == c[..|c| - n - 1] + c[|c| - n - 1..];
      r
    else []
  }

  /** Appending a separator and a separator-free name to any namespace gives a class
      whose short name is that name and whose namespace is the given one. */
  lemma ShortNameOfQualified(ns: string, n: string)
    requires Separator !in n
    ensures ShortName(ns + [Separator] + n) == n
    ensures NamespaceOf(ns + [Separator] + n) == ns
  {
    var c := ns + [Separator] + n;
    assert c[|ns| + 1..] == n;
    assert c[|c| - |n| - 1] == Separator;
    ShortNameSpec(c);
    ShortNameUnique(n, ShortName(c), c);
    assert Separator in c by { assert c[|ns|] == Separator; }
    assert NamespaceOf(c) + [Separator] + n == ns + [Separator] + n;
    assert NamespaceOf(c) == (NamespaceOf(c) + [Separator] + n)[..|ns|];
  }

  /** The class class_exists and new look up for a name: a leading separator
      (the fully qualified form) is dropped. */
  function ResolveName(n: string): string {
    if |n| > 0 && n[0] == Separator then n[1..] else n
  }

  /** Joining a valid class's namespace, a separator and its short name gives back
      the class, also for a class in the global namespace ("\\Name"). */
  lemma QualifiedNameResolves(c: ClassName)
    requires ValidName(c)
    ensures ResolveName(NamespaceOf(c) + [Separator] + ShortName(c)) == c
  {
    ShortNameSpec(c);
    if Separator !in c {
      assert ShortName(c) == c[|c| - |ShortName(c)|..] == c;
    }
  }

  /** A name PHP would accept for a class: not empty, not starting with a separator
      or a digit, and not ending with a separator. */
  predicate ValidName(c: ClassName) {
    |c| > 0 && !('0' <= c[0] <= '9') && c[0] != Separator && c[|c| - 1] != Separator
  }

  /** The declared classes. Each maps to its parent, or None for a class without
      one. The ranks witness that the inheritance chain is finite and acyclic, as
      PHP guarantees: a parent always has a smaller rank than its child. */
  datatype Hierarchy = Hierarchy(parent: map<ClassName, Option<ClassName>>, rank: map<ClassName, nat>) {

    ghost predicate Valid() {
      Acyclic() && forall c :: c in parent ==> ValidName(c)
    }

    /** Every parent is declared and ranks strictly below its child. */
    ghost predicate Acyclic() {
      rank.Keys == parent.Keys &&
      (forall c {:trigger parent[c]} :: c in parent && parent[c].Some? ==>
         parent[c].value in parent && rank[parent[c].value] < rank[c])
    }

    /** class_exists */
    predicate Exists(c: ClassName) {
      c in parent
    }

    /** get_parent_class: None for a class without a parent or an unknown class. */
    function Parent(c: ClassName): Option<ClassName> {
      if c in parent then parent[c] else None
    }

    /** The k-th class up the inheritance chain of c; the 0-th is c itself. */
    function NthAncestor(c: ClassName, k: nat): Option<ClassName>
      decreases k
    {
      if k == 0 then Some(c)
      else match Parent(c)
        case None => None
        case Some(p) => NthAncestor(p, k - 1)
    }

    /** is_subclass_of: b is a proper ancestor of c. */
    function IsSubclassOf(c: ClassName, b: ClassName): bool
      requires Valid()
      decreases if c in rank then rank[c] else 0
    {
      match Parent(c)
      case None => false
      case Some(p) => p == b || IsSubclassOf(p, b)
    }
  }

  /** is_subclass_of holds exactly when b turns up somewhere above c in its chain. */
  lemma IsSubclassOfIff(h: Hierarchy, c: ClassName, b: ClassName)
    requires h.Valid()
    ensures h.IsSubclassOf(c, b) <==> exists k: nat :: 1 <= k && h.NthAncestor(c, k) == Some(b)
  {
    if h.IsSubclassOf(c, b) {
      var k := SubclassDepth(h, c, b);
    }
    forall k: nat | 1 <= k && h.NthAncestor(c, k) == Some(b) ensures h.IsSubclassOf(c, b) {
      AncestorIsSuperclass(h, c, b, k);
    }
  }

  /** How far above c the superclass b sits. */
  lemma {:induction false} SubclassDepth(h: Hierarchy, c: ClassName, b: ClassName) returns (k: nat)
    requires h.Valid() && h.IsSubclassOf(c, b)
    ensures 1 <= k && h.NthAncestor(c, k) == Some(b)
    decreases if c in h.rank then h.rank[c] else 0
  {
    match h.Parent(c)
    case Some(p) =>
      if p == b {
        k := 1;
        assert h.NthAncestor(c, k) == h.NthAncestor(p, 0);
      } else {
        assert h.IsSubclassOf(p, b);
        assert h.rank[p] < h.rank[c];
        var j := SubclassDepth(h, p, b);
        k := j + 1;
        assert h.NthAncestor(c, k) == h.NthAncestor(p, j);
      }
  }

  lemma {:induction false} AncestorIsSuperclass(h: Hierarchy, c: ClassName, b: ClassName, k: nat)
    requires h.Valid() && 1 <= k && h.NthAncestor(c, k) == Some(b)
    ensures h.IsSubclassOf(c, b)
    decreases k
  {
    var p := h.Parent(c).value;
    if k > 1 {
      assert h.NthAncestor(p, k - 1) == Some(b);
      AncestorIsSuperclass(h, p, b, k - 1);
    }
  }

  /** Every ancestor of a declared class is declared and strictly lower in rank:
      walking up the parent chain never comes back to where it started. */
  lemma {:induction false} AncestorsDescendInRank(h: Hierarchy, c: ClassName, k: nat)
    requires h.Valid() && h.Exists(c)
    ensures h.NthAncestor(c, k).Some? ==>
              h.Exists(h.NthAncestor(c, k).value) &&
              h.rank[h.NthAncestor(c, k).value] <= h.rank[c] - k
    decreases k
  {
    if k > 0 {
      match h.Parent(c)
      case None =>
      case Some(p) =>
        AncestorsDescendInRank(h, p, k - 1);
    }
  }

  /** The class table has no cycles. */
  lemma NoInheritanceCycle(h: Hierarchy, c: ClassName, k: nat)
    requires h.Valid() && h.Exists(c) && k >= 1
    ensures h.NthAncestor(c, k) != Some(c)
  {
    AncestorsDescendInRank(h, c, k);
  }
}
