/**
 * `os.path.split` and `os.path.join` as the POSIX implementation of Python's
 * `posixpath` module defines them; both scripts build every path and URL
 * path with them.
 */
module PosixPath {
  import opened Text

  predicate AllSlashes(s: string) {
    forall i :: 0 <= i < |s| ==> s[i] == '/'
  }

  /** No `//` anywhere in `p`. */
  predicate NoDoubleSlash(p: string) {
    forall i :: 0 <= i < |p| - 1 && p[i] == '/' ==> p[i + 1] != '/'
  }

  /** `p.rfind("/") + 1`: where the last path component starts. */
  function AfterLastSlash(p: string): (k: nat)
    ensures k <= |p|
    ensures '/' !in p[k..]
    ensures k > 0 ==> p[k - 1] == '/'
  {
    if p == [] then 0
    else if p[|p| - 1] == '/' then |p|
    else AfterLastSlash(p[..|p| - 1])
  }

  /** `s.rstrip("/")` */
  function RStripSlashes(s: string): (r: string)
    ensures |r| <= |s| && r == s[..|r|]
    ensures forall i :: |r| <= i < |s| ==> s[i] == '/'
    ensures r == [] || r[|r| - 1] != '/'
  {
    if s != [] && s[|s| - 1] == '/' then RStripSlashes(s[..|s| - 1]) else s
  }

  /**
   * `os.path.split(p)`: the head is everything up to the last `/`, with its
   * trailing slashes removed unless it consists of slashes only; the tail is
   * everything after the last `/`.
   */
  function Split(p: string): (string, string) {
    var i := AfterLastSlash(p);
    var head, tail := p[..i], p[i..];
    if head != [] && !AllSlashes(head) then (RStripSlashes(head), tail) else (head, tail)
  }

  /** `os.path.join(a, b)` for two components. */
  function Join(a: string, b: string): string {
    if StartsWith(b, "/") then b
    else if a == [] || EndsWith(a, "/") then a + b
    else a + "/" + b
  }

  /** The tail of a split never holds a `/`, and it is what `p` ends with. */
  lemma SplitTail(p: string)
    ensures '/' !in Split(p).1
    ensures EndsWith(p, Split(p).1)
  {
  }

  /** Splitting and joining again gives the path back when it has no `//`. */
  lemma SplitThenJoin(p: string)
    requires NoDoubleSlash(p)
    ensures Join(Split(p).0, Split(p).1) == p
  {
    var i := AfterLastSlash(p);
    var head, tail := p[..i], p[i..];
    assert !StartsWith(tail, "/") by {
      if tail != [] { assert tail[0] in tail; }
    }
    if head != [] && !AllSlashes(head) {
      assert i >= 2 && p[i - 2] != '/';
      assert head[..i - 1] == p[..i - 1];
      assert RStripSlashes(head) == p[..i - 1];
      assert p[..i - 1] + "/" + tail == p;
    } else if head != [] {
      assert EndsWith(head, "/");
      assert head + tail == p;
    } else {
      assert head + tail == p;
    }
  }

  /**
   * Joining a name without `/` to a directory that does not end in `/` and
   * splitting the result gives back the directory and the name.
   */
  lemma JoinThenSplit(a: string, name: string)
    requires a != [] && !EndsWith(a, "/")
    requires '/' !in name
    ensures Split(Join(a, name)) == (a, name)
  {
    assert !StartsWith(name, "/") by {
      if name != [] { assert name[0] in name; }
    }
    var p := a + "/" + name;
    assert Join(a, name) == p;
    var i := AfterLastSlash(p);
    assert p[|a|] == '/';
    assert i == |a| + 1;
    assert p[..i] == a + "/";
    assert !AllSlashes(a + "/") by {
      assert (a + "/")[|a| - 1] == a[|a| - 1];
    }
    assert (a + "/")[..|a|] == a;
    assert p[i..] == name;
  }

  /** Whatever the directory, joining a name without `/` leaves it the last component. */
  lemma JoinedNameIsTail(a: string, name: string)
    requires '/' !in name
    ensures Split(Join(a, name)).1 == name
  {
    assert !StartsWith(name, "/") by {
      if name != [] { assert name[0] in name; }
    }
    var p := Join(a, name);
    var cut := |p| - |name|;
    assert p[cut..] == name;
    var i := AfterLastSlash(p);
    if cut > 0 {
      assert p[cut - 1] == '/';
    }
    assert i == cut;
  }

  /**
   * In an absolute path without `//`, joining the head of the split with a
   * relative name replaces the last component by that name.
   */
  lemma JoinWithHead(p: string, name: string)
    requires StartsWith(p, "/") && NoDoubleSlash(p)
    requires !StartsWith(name, "/")
    ensures Join(Split(p).0, name) == p[..AfterLastSlash(p)] + name
  {
    var i := AfterLastSlash(p);
    assert p[0] == '/';
    assert i >= 1;
    var head := p[..i];
    if AllSlashes(head) {
      assert |p| >= 2 ==> p[1] != '/';
      assert i == 1;
    } else {
      assert i >= 2 && p[i - 2] != '/';
      assert head[..i - 1] == p[..i - 1];
      assert RStripSlashes(head) == p[..i - 1];
      assert p[..i - 1] + "/" == p[..i];
    }
  }
}
