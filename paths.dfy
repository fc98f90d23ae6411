/**
 * A model of the `path/filepath` functions the site generator calls (`Join`,
 * `Base`, `Ext`) and of `Clean`, which `Join` applies to its result, for a Unix
 * host: the separator is '/', and there are no volume names. `Split` and
 * `JoinSep` are this model's own view of a path as its '/'-separated
 * elements; `JoinSep` is `strings.Join` with "/", as `Clean` uses it inside
 * `filepath.Join`.
 */
module Paths {

  /** An element that `Clean` keeps as it is: not empty, not "." or "..", and free of separators. */
  predicate IsName(e: string)
  {
    e != "" && e != "." && e != ".." && '/' !in e
  }

  predicate AllNames(es: seq<string>)
  {
    forall k :: 0 <= k < |es| ==> IsName(es[k])
  }

  predicate NoSeparators(es: seq<string>)
  {
    forall k :: 0 <= k < |es| ==> '/' !in es[k]
  }

  // ---------------------------------------------------------------------------
  // strings.Split(s, "/") and strings.Join(es, "/")
  // ---------------------------------------------------------------------------

  /** `strings.Split(s, "/")`: the text between separators, empty elements included. */
  function Split(s: string): (r: seq<string>)
    ensures |r| >= 1 && NoSeparators(r)
    decreases |s|
  {
    if s == [] then [""]
    else
      var rest := Split(s[1..]);
      if s[0] == '/' then [""] + rest
      else [[s[0]] + rest[0]] + rest[1..]
  }

  /** `strings.Join(es, "/")`. */
  function JoinSep(es: seq<string>): string
  {
    if |es| == 0 then ""
    else if |es| == 1 then es[0]
    else es[0] + "/" + JoinSep(es[1..])
  }

  /** Joining what was split gives the original text back. */
  lemma {:induction false} JoinSepSplit(s: string)
    ensures JoinSep(Split(s)) == s
    decreases |s|
  {
    if s != [] {
      JoinSepSplit(s[1..]);
      var rest := Split(s[1..]);
      if s[0] != '/' && |rest| > 1 {
        assert JoinSep(rest) == rest[0] + "/" + JoinSep(rest[1..]);
        assert JoinSep(rest[1..]) == JoinSep(([[s[0]] + rest[0]] + rest[1..])[1..]);
      }
    }
  }

  lemma {:induction false} SplitName(w: string)
    requires '/' !in w
    ensures Split(w) == [w]
    decreases |w|
  {
    if w != [] {
      assert forall c :: c in w[1..] ==> c in w;
      SplitName(w[1..]);
      assert w[0] in w;
      assert [w[0]] + w[1..] == w;
    }
  }

  lemma {:induction false} SplitSlash(w: string, t: string)
    requires '/' !in w
    ensures Split(w + "/" + t) == [w] + Split(t)
    decreases |w|
  {
    var s := w + "/" + t;
    if w == [] {
      assert s[0] == '/' && s[1..] == t;
    } else {
      assert s[0] == w[0] && s[1..] == w[1..] + "/" + t;
      SplitSlash(w[1..], t);
      assert [w[0]] + w[1..] == w;
    }
  }

  /** Splitting what was joined gives the elements back, when none holds a separator. */
  lemma {:induction false} SplitJoinSep(es: seq<string>)
    requires |es| >= 1 && NoSeparators(es)
    ensures Split(JoinSep(es)) == es
    decreases |es|
  {
    if |es| == 1 {
      SplitName(es[0]);
    } else {
      SplitJoinSep(es[1..]);
      SplitSlash(es[0], JoinSep(es[1..]));
      assert [es[0]] + es[1..] == es;
    }
  }

  /** Joining is injective on element lists without separators. */
  lemma JoinSepInjective(a: seq<string>, b: seq<string>)
    requires |a| >= 1 && NoSeparators(a) && |b| >= 1 && NoSeparators(b)
    requires JoinSep(a) == JoinSep(b)
    ensures a == b
  {
    SplitJoinSep(a);
    SplitJoinSep(b);
  }

  lemma {:induction false} JoinSepAppend(a: seq<string>, b: seq<string>)
    requires |a| >= 1 && |b| >= 1
    ensures JoinSep(a + b) == JoinSep(a) + "/" + JoinSep(b)
    decreases |a|
  {
    if |a| == 1 {
      assert (a + b)[1..] == b;
    } else {
      JoinSepAppend(a[1..], b);
      assert (a + b)[1..] == a[1..] + b;
    }
  }

  /** Splitting "x/y" splits x and y separately. */
  lemma SplitAppend(x: string, y: string)
    ensures Split(x + "/" + y) == Split(x) + Split(y)
  {
    var a, b := Split(x), Split(y);
    JoinSepSplit(x);
    JoinSepSplit(y);
    JoinSepAppend(a, b);
    SplitJoinSep(a + b);
  }

  // ---------------------------------------------------------------------------
  // filepath.Clean
  // ---------------------------------------------------------------------------

  /**
   * One element of Clean's lexical processing: drop empty elements and ".",
   * let ".." remove the element before it, drop ".." at the start of a rooted
   * path, keep ".." at the start of a relative one.
   */
  function Step(stack: seq<string>, e: string, rooted: bool): seq<string>
  {
    if e == "" || e == "." then stack
    else if e == ".." then
      if |stack| > 0 && stack[|stack| - 1] != ".." then stack[..|stack| - 1]
      else if rooted then stack
      else stack + [".."]
    else stack + [e]
  }

  function Resolve(stack: seq<string>, es: seq<string>, rooted: bool): seq<string>
    decreases |es|
  {
    if es == [] then stack else Resolve(Step(stack, es[0], rooted), es[1..], rooted)
  }

  /** `filepath.Clean(p)`: the shortest lexically equivalent path; "." for an empty result. */
  function Clean(p: string): (r: string)
    ensures r != ""
  {
    if p == "" then "."
    else
      var rooted := p[0] == '/';
      var body := JoinSep(Resolve([], Split(p), rooted));
      if rooted then "/" + body else if body == "" then "." else body
  }

  /** The shape of a cleaned element list: names, preceded by ".." only in a relative path. */
  predicate Canonical(st: seq<string>, rooted: bool)
  {
    forall k :: 0 <= k < |st| ==> CanonicalAt(st, k, rooted)
  }

  /** Element k is a name, or a ".." of a relative path that only ".." precede. */
  predicate CanonicalAt(st: seq<string>, k: nat, rooted: bool)
    requires k < |st|
  {
    IsName(st[k]) || (!rooted && st[k] == ".." && (k == 0 || st[k - 1] == ".."))
  }

  lemma {:induction false} ResolveAppend(st: seq<string>, a: seq<string>, b: seq<string>, rooted: bool)
    ensures Resolve(st, a + b, rooted) == Resolve(Resolve(st, a, rooted), b, rooted)
    decreases |a|
  {
    if a != [] {
      assert (a + b)[0] == a[0] && (a + b)[1..] == a[1..] + b;
      assert Resolve(st, a + b, rooted) == Resolve(Step(st, a[0], rooted), a[1..] + b, rooted);
      assert Resolve(st, a, rooted) == Resolve(Step(st, a[0], rooted), a[1..], rooted);
      ResolveAppend(Step(st, a[0], rooted), a[1..], b, rooted);
    } else {
      assert a + b == b;
    }
  }

  lemma {:induction false} ResolveNames(st: seq<string>, ns: seq<string>, rooted: bool)
    requires AllNames(ns)
    ensures Resolve(st, ns, rooted) == st + ns
    decreases |ns|
  {
    if ns != [] {
      assert IsName(ns[0]);
      assert Step(st, ns[0], rooted) == st + [ns[0]];
      assert AllNames(ns[1..]) by {
        forall k | 0 <= k < |ns[1..]| ensures IsName(ns[1..][k]) {
          assert ns[1..][k] == ns[k + 1];
        }
      }
      ResolveNames(st + [ns[0]], ns[1..], rooted);
      assert st + [ns[0]] + ns[1..] == st + ns;
    }
  }

  lemma {:induction false} ResolveEmpties(st: seq<string>, es: seq<string>, rooted: bool)
    requires forall k :: 0 <= k < |es| ==> es[k] == ""
    ensures Resolve(st, es, rooted) == st
    decreases |es|
  {
    if es != [] {
      ResolveEmpties(st, es[1..], rooted);
    }
  }

  /** Without "..", processing only ever adds elements: the stack so far is kept. */
  lemma {:induction false} ResolveKeepsStack(st: seq<string>, es: seq<string>, rooted: bool)
    requires forall k :: 0 <= k < |es| ==> es[k] != ".."
    ensures st <= Resolve(st, es, rooted)
    decreases |es|
  {
    if es != [] {
      var st' := Step(st, es[0], rooted);
      ResolveKeepsStack(st', es[1..], rooted);
    }
  }

  lemma StepCanonical(st: seq<string>, e: string, rooted: bool)
    requires Canonical(st, rooted) && '/' !in e
    ensures Canonical(Step(st, e, rooted), rooted)
  {
    var st' := Step(st, e, rooted);
    if e == ".." && |st| > 0 && st[|st| - 1] != ".." {
      assert st' == st[..|st| - 1];
      forall k | 0 <= k < |st'|
        ensures CanonicalAt(st', k, rooted)
      {
        assert st'[k] == st[k];
        assert CanonicalAt(st, k, rooted);
        if k > 0 { assert st'[k - 1] == st[k - 1]; }
      }
    } else if e != "" && e != "." && !(e == ".." && rooted) {
      var top := if e == ".." then ".." else e;
      assert st' == st + [top];
      forall k | 0 <= k < |st'|
        ensures CanonicalAt(st', k, rooted)
      {
        if k < |st| {
          assert st'[k] == st[k];
          assert CanonicalAt(st, k, rooted);
          if k > 0 { assert st'[k - 1] == st[k - 1]; }
        } else {
          assert st'[k] == top;
          if k > 0 { assert st'[k - 1] == st[k - 1]; }
        }
      }
    }
  }

  /** Clean's processing always yields a canonical element list. */
  lemma {:induction false} ResolveCanonical(st: seq<string>, es: seq<string>, rooted: bool)
    requires Canonical(st, rooted) && NoSeparators(es)
    ensures Canonical(Resolve(st, es, rooted), rooted)
    decreases |es|
  {
    if es != [] {
      StepCanonical(st, es[0], rooted);
      assert NoSeparators(es[1..]) by {
        forall k | 0 <= k < |es[1..]| ensures '/' !in es[1..][k] {
          assert es[1..][k] == es[k + 1];
        }
      }
      ResolveCanonical(Step(st, es[0], rooted), es[1..], rooted);
    }
  }

  /** Elements of a canonical list hold no separator, and the first is never empty. */
  lemma CanonicalElements(st: seq<string>, rooted: bool)
    requires Canonical(st, rooted)
    ensures NoSeparators(st)
    ensures st != [] ==> st[0] != "" && st[0][0] != '/'
  {
    forall k | 0 <= k < |st| ensures '/' !in st[k] && st[k] != "" && st[k][0] != '/' {
      assert CanonicalAt(st, k, rooted);
      assert st[k] != "";
      assert st[k][0] in st[k];
    }
  }

  /** A canonical list is left as it is by Clean's processing. */
  lemma {:induction false} ResolveFixed(pre: seq<string>, es: seq<string>, rooted: bool)
    requires Canonical(pre + es, rooted)
    ensures Resolve(pre, es, rooted) == pre + es
    decreases |es|
  {
    if es != [] {
      assert (pre + es)[|pre|] == es[0];
      assert |pre| > 0 ==> (pre + es)[|pre| - 1] == pre[|pre| - 1];
      assert CanonicalAt(pre + es, |pre|, rooted);
      assert Step(pre, es[0], rooted) == pre + [es[0]];
      assert pre + [es[0]] + es[1..] == pre + es;
      assert Resolve(pre, es, rooted) == Resolve(pre + [es[0]], es[1..], rooted);
      ResolveFixed(pre + [es[0]], es[1..], rooted);
    }
  }

  lemma JoinSepHead(es: seq<string>)
    requires |es| >= 1 && es[0] != ""
    ensures JoinSep(es) != "" && JoinSep(es)[0] == es[0][0]
  {
  }

  /** Cleaning is idempotent: a cleaned path is already clean. */
  lemma CleanIdempotent(p: string)
    ensures Clean(Clean(p)) == Clean(p)
  {
    SplitName(".");
    assert Clean(".") == ".";
    if p != "" {
      var rooted := p[0] == '/';
      var st := Resolve([], Split(p), rooted);
      ResolveCanonical([], Split(p), rooted);
      var body := JoinSep(st);
      if st != [] {
        CanonicalElements(st, rooted);
        assert [] + st == st;
        SplitJoinSep(st);
        ResolveFixed([], st, rooted);
        assert [] + st == st;
      }
      if rooted {
        var c := "/" + body;
        assert c == "" + "/" + body;
        SplitAppend("", body);
        ResolveAppend([], [""], Split(body), true);
        if st == [] {
          assert Split(body) == [""];
        }
        assert Resolve([], Split(c), true) == st;
      } else if body != "" {
        assert st != [];
        CanonicalElements(st, rooted);
        JoinSepHead(st);
      }
    }
  }

  /**
   * Cleaning a path whose elements are names, with empty elements only between
   * the first group of names and the second, drops the empty elements.
   */
  lemma CleanOfNames(p: string, rs: seq<string>, mid: seq<string>, ns: seq<string>)
    requires |rs| >= 1 && AllNames(rs) && AllNames(ns)
    requires forall k :: 0 <= k < |mid| ==> mid[k] == ""
    requires Split(p) == rs + mid + ns
    ensures Clean(p) == JoinSep(rs + ns)
  {
    assert p != "";
    assert (rs + mid + ns)[0] == rs[0];
    assert p[0] != '/';
    ResolveAppend([], rs + mid, ns, false);
    ResolveAppend([], rs, mid, false);
    ResolveNames([], rs, false);
    ResolveEmpties(rs, mid, false);
    ResolveNames(rs, ns, false);
    assert [] + rs == rs;
    JoinSepHead(rs + ns);
  }

  // ---------------------------------------------------------------------------
  // filepath.Join (two elements)
  // ---------------------------------------------------------------------------

  /** `filepath.Join(a, b)`: join the elements from the first non-empty one, then Clean. */
  function Join(a: string, b: string): (r: string)
    ensures r == "" <==> a == "" && b == ""
  {
    if a != "" then Clean(a + "/" + b) else if b != "" then Clean(b) else ""
  }

  /** Joining two relative name paths concatenates them. */
  lemma JoinRelative(rs: seq<string>, ns: seq<string>)
    requires |rs| >= 1 && AllNames(rs) && |ns| >= 1 && AllNames(ns)
    ensures Join(JoinSep(rs), JoinSep(ns)) == JoinSep(rs + ns)
  {
    JoinSepHead(rs);
    SplitAppend(JoinSep(rs), JoinSep(ns));
    SplitJoinSep(rs);
    SplitJoinSep(ns);
    CleanOfNames(JoinSep(rs) + "/" + JoinSep(ns), rs, [], ns);
    assert rs + [] + ns == rs + ns;
  }

  /**
   * Joining a relative name path with a rooted one ("/" followed by names,
   * possibly none) puts the second under the first: the leading slash does
   * not make the result absolute.
   */
  lemma JoinRooted(rs: seq<string>, ns: seq<string>)
    requires |rs| >= 1 && AllNames(rs) && AllNames(ns)
    ensures Join(JoinSep(rs), "/" + JoinSep(ns)) == JoinSep(rs + ns)
  {
    var root := JoinSep(rs);
    JoinSepHead(rs);
    SplitJoinSep(rs);
    SplitAppend(root, "/" + JoinSep(ns));
    assert "/" + JoinSep(ns) == "" + "/" + JoinSep(ns);
    SplitAppend("", JoinSep(ns));
    if ns == [] {
      assert Split("/" + JoinSep(ns)) == ["", ""];
      CleanOfNames(root + "/" + ("/" + JoinSep(ns)), rs, ["", ""], ns);
    } else {
      SplitJoinSep(ns);
      CleanOfNames(root + "/" + ("/" + JoinSep(ns)), rs, [""], ns);
    }
    assert rs + [] == rs;
  }

  /** Join's result is its second argument, or ends in a separator and that argument, when it is a single name. */
  lemma JoinEndsWithName(p: string, n: string) returns (front: string)
    requires IsName(n)
    ensures Join(p, n) == n || Join(p, n) == front + "/" + n
  {
    front := "";
    SplitName(n);
    if p == "" {
      ResolveNames([], [n], false);
      assert [] + [n] == [n];
      assert n[0] in n;
    } else {
      var rooted := p[0] == '/';
      assert (p + "/" + n)[0] == p[0];
      SplitAppend(p, n);
      var r := Resolve([], Split(p), rooted);
      ResolveAppend([], Split(p), [n], rooted);
      ResolveNames(r, [n], rooted);
      assert Resolve([], Split(p + "/" + n), rooted) == r + [n];
      if r == [] {
        assert JoinSep(r + [n]) == n;
        if rooted {
          assert Join(p, n) == "/" + n;
        } else {
          assert Join(p, n) == n;
        }
      } else {
        JoinSepAppend(r, [n]);
        assert JoinSep(r + [n]) == JoinSep(r) + "/" + n;
        front := if rooted then "/" + JoinSep(r) else JoinSep(r);
      }
    }
  }

  /** The last element decides Base and Ext, so joining a name keeps both. */
  lemma JoinLastElement(p: string, n: string)
    requires IsName(n)
    ensures Base(Join(p, n)) == n
    ensures Ext(Join(p, n)) == Ext(n)
  {
    var front := JoinEndsWithName(p, n);
    BaseOf(front, n);
    ExtOfLast(front, n);
  }

  /** Joining under a root name never leaves the root unless an element is "..". */
  lemma JoinStaysUnder(root: string, b: string)
    requires IsName(root)
    requires forall k :: 0 <= k < |Split(b)| ==> Split(b)[k] != ".."
    ensures Join(root, b) == root || root + "/" <= Join(root, b)
  {
    SplitName(root);
    SplitAppend(root, b);
    var es := Split(root + "/" + b);
    assert es == [root] + Split(b);
    ResolveAppend([], [root], Split(b), false);
    ResolveNames([], [root], false);
    assert [] + [root] == [root];
    var st := Resolve([root], Split(b), false);
    ResolveKeepsStack([root], Split(b), false);
    assert root[0] in root;
    if |st| > 1 {
      assert st == [root] + st[1..];
      JoinSepAppend([root], st[1..]);
    }
  }

  // ---------------------------------------------------------------------------
  // filepath.Base
  // ---------------------------------------------------------------------------

  function TrimTrailingSeparators(p: string): (r: string)
    ensures r <= p
    ensures r == "" || r[|r| - 1] != '/'
  {
    if p != [] && p[|p| - 1] == '/' then TrimTrailingSeparators(p[..|p| - 1]) else p
  }

  /** Where the element that ends at `i` starts: just after the nearest separator before `i`. */
  function ElementStart(p: string, i: nat): (k: nat)
    requires i <= |p| && forall j :: i <= j < |p| ==> p[j] != '/'
    ensures k <= i && (k == 0 || p[k - 1] == '/')
    ensures forall j :: k <= j < |p| ==> p[j] != '/'
    decreases i
  {
    if i == 0 || p[i - 1] == '/' then i else ElementStart(p, i - 1)
  }

  /** The text after the last separator. */
  function LastElement(p: string): (r: string)
    requires p == [] || p[|p| - 1] != '/'
    ensures '/' !in r
    ensures |r| <= |p| && r == p[|p| - |r|..]
    ensures p != [] ==> r != ""
  {
    var k := ElementStart(p, |p|);
    assert forall j :: 0 <= j < |p| - k ==> p[k..][j] == p[k + j];
    p[k..]
  }

  /**
   * `filepath.Base(p)`: the last element, trailing separators ignored; "." for
   * the empty path and "/" for a path of separators only.
   */
  function Base(p: string): (r: string)
    ensures r != ""
    ensures r == "/" || '/' !in r
  {
    if p == "" then "."
    else
      var t := TrimTrailingSeparators(p);
      if t == "" then "/" else LastElement(t)
  }

  lemma {:induction false} ElementStartAfter(x: string, q: string, w: string, j: nat)
    requires x == q + "/" + w && '/' !in w && j <= |w|
    requires forall i :: |q| + 1 + j <= i < |x| ==> x[i] != '/'
    ensures ElementStart(x, |q| + 1 + j) == |q| + 1
    decreases j
  {
    if j > 0 {
      assert x[|q| + j] == w[j - 1];
      assert w[j - 1] in w;
      ElementStartAfter(x, q, w, j - 1);
    } else {
      assert x[|q|] == '/';
    }
  }

  lemma {:induction false} ElementStartWhole(w: string, j: nat)
    requires '/' !in w && j <= |w|
    ensures ElementStart(w, j) == 0
    decreases j
  {
    if j > 0 {
      assert w[j - 1] in w;
      ElementStartWhole(w, j - 1);
    }
  }

  /** Base gives back the last element of a path that ends in a name. */
  lemma BaseOf(q: string, n: string)
    requires n != "" && '/' !in n
    ensures Base(n) == n
    ensures Base(q + "/" + n) == n
  {
    assert n[|n| - 1] in n;
    ElementStartWhole(n, |n|);
    var x := q + "/" + n;
    assert forall i :: |q| + 1 <= i < |x| ==> x[i] == n[i - |q| - 1];
    ElementStartAfter(x, q, n, |n|);
    assert x[|q| + 1..] == n;
  }

  // ---------------------------------------------------------------------------
  // filepath.Ext
  // ---------------------------------------------------------------------------

  /** Neither a separator nor a dot in `path[i..]`. */
  predicate Plain(path: string, i: nat)
    requires i <= |path|
  {
    forall k :: i <= k < |path| ==> path[k] != '/' && path[k] != '.'
  }

  /** Scan `path[..i]` backwards for a '.' before any separator. */
  function ExtBefore(path: string, i: nat): string
    requires i <= |path|
    decreases i
  {
    if i == 0 || path[i - 1] == '/' then ""
    else if path[i - 1] == '.' then path[i - 1..]
    else ExtBefore(path, i - 1)
  }

  /** What the scan finds: a suffix of `path` that starts with its only dot and holds no separator. */
  lemma {:induction false} ExtBeforeShape(path: string, i: nat)
    requires i <= |path| && Plain(path, i)
    ensures var r := ExtBefore(path, i);
      |r| <= |path| && (r != "" ==> r == path[|path| - |r|..] && r[0] == '.' && Plain(path, |path| - |r| + 1))
    decreases i
  {
    if i > 0 && path[i - 1] != '/' && path[i - 1] != '.' {
      ExtBeforeShape(path, i - 1);
    }
  }

  /**
   * `filepath.Ext(path)`: the suffix from the last '.' of the last element, or
   * "" when the last element has no dot.
   */
  function Ext(path: string): (r: string)
    ensures |r| <= |path|
    ensures r != "" ==> r[0] == '.' && '/' !in r && '.' !in r[1..] && r == path[|path| - |r|..]
  {
    ExtBeforeShape(path, |path|);
    var r := ExtBefore(path, |path|);
    assert r != "" ==> forall k :: 1 <= k < |r| ==> r[k] == path[|path| - |r| + k];
    assert r != "" ==> forall k :: 0 <= k < |r[1..]| ==> r[1..][k] == r[k + 1];
    r
  }

  lemma {:induction false} ExtBeforeShift(x: string, q: string, w: string, j: nat)
    requires x == q + "/" + w && j <= |w|
    requires forall k :: 0 <= k < |w| ==> w[k] != '/'
    ensures ExtBefore(x, |q| + 1 + j) == ExtBefore(w, j)
    decreases j
  {
    var i := |q| + 1 + j;
    if j == 0 {
      assert x[i - 1] == '/';
      assert ExtBefore(x, i) == "";
    } else {
      var c := w[j - 1];
      assert x[i - 1] == c;
      if c == '.' {
        assert ExtBefore(x, i) == x[i - 1..];
        assert ExtBefore(w, j) == w[j - 1..];
        assert x[|q| + 1..] == w;
        assert x[i - 1..] == x[|q| + 1..][j - 1..];
      } else {
        assert ExtBefore(x, i) == ExtBefore(x, i - 1);
        assert ExtBefore(w, j) == ExtBefore(w, j - 1);
        ExtBeforeShift(x, q, w, j - 1);
      }
    }
  }

  /** Ext looks only at the last element. */
  lemma ExtOfLast(q: string, w: string)
    requires '/' !in w
    ensures Ext(q + "/" + w) == Ext(w)
  {
    assert forall k :: 0 <= k < |w| ==> w[k] in w;
    ExtBeforeShift(q + "/" + w, q, w, |w|);
  }

  lemma {:induction false} ExtBeforeNoDot(w: string, i: nat)
    requires i <= |w| && '/' !in w && '.' !in w
    ensures ExtBefore(w, i) == ""
    decreases i
  {
    if i > 0 {
      assert w[i - 1] in w;
      ExtBeforeNoDot(w, i - 1);
    } else {
      assert forall k :: 0 <= k < |w| ==> w[k] in w;
    }
  }

  /** A last element without a dot has no extension. */
  lemma ExtNone(q: string, w: string)
    requires '/' !in w && '.' !in w
    ensures Ext(w) == ""
    ensures Ext(q + "/" + w) == ""
  {
    ExtBeforeNoDot(w, |w|);
    ExtOfLast(q, w);
  }

  lemma {:induction false} ExtBeforeDotted(s: string, x: string, e: string, j: nat)
    requires s == x + "." + e
    requires '/' !in e && '.' !in e && j <= |e|
    ensures ExtBefore(s, |x| + 1 + j) == "." + e
    decreases j
  {
    assert forall i :: |x| + 1 <= i < |s| ==> s[i] == e[i - |x| - 1];
    assert forall k :: 0 <= k < |e| ==> e[k] in e;
    if j == 0 {
      assert s[|x|] == '.';
      assert s[|x|..] == "." + e;
    } else {
      ExtBeforeDotted(s, x, e, j - 1);
    }
  }

  /** The extension is everything from the last dot, when no separator follows it. */
  lemma ExtDotted(x: string, e: string)
    requires '/' !in e && '.' !in e
    ensures Ext(x + "." + e) == "." + e
  {
    ExtBeforeDotted(x + "." + e, x, e, |e|);
  }
}
