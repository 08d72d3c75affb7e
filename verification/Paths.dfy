/** Paths as byte strings: their components, and the split into parent path and final name
    (fs/ext4/ext4.c, ext4_resolve_path and the head of ext4_write_file). */
module Paths {
  import opened Bytes

  const SLASH: byte := 0x2F

  /** How many bytes there are before the first slash. */
  function CompLen(p: seq<byte>): (n: nat)
    ensures n <= |p| && (forall i :: 0 <= i < n ==> p[i] != SLASH) && (n < |p| ==> p[n] == SLASH)
  {
    if p == [] || p[0] == SLASH then 0 else 1 + CompLen(p[1..])
  }

  /** The nonempty components of a path. */
  function Components(p: seq<byte>): seq<seq<byte>>
    decreases |p|
  {
    if p == [] then []
    else if p[0] == SLASH then Components(p[1..])
    else [p[..CompLen(p)]] + Components(p[CompLen(p)..])
  }

  lemma SkipSlash(path: seq<byte>, p: nat)
    requires p < |path| && path[p] == SLASH
    ensures Components(path[p..]) == Components(path[p + 1..])
  {
    assert path[p..][1..] == path[p + 1..];
  }

  lemma TakeComponent(path: seq<byte>, start: nat, p: nat)
    requires start < p <= |path| && (forall i :: start <= i < p ==> path[i] != SLASH)
    requires p == |path| || path[p] == SLASH
    ensures Components(path[start..]) == [path[start..p]] + Components(path[p..])
  {
    assert path[start..] == path[start..p] + path[p..];
    ComponentThen(path[start..p], path[p..]);
  }

  predicate NoSlash(name: seq<byte>) {
    forall i :: 0 <= i < |name| ==> name[i] != SLASH
  }

  lemma CompLenOf(name: seq<byte>, rest: seq<byte>)
    requires NoSlash(name) && (rest == [] || rest[0] == SLASH)
    ensures CompLen(name + rest) == |name|
  {
    if name == [] {
      assert name + rest == rest;
    } else {
      assert (name + rest)[1..] == name[1..] + rest;
      CompLenOf(name[1..], rest);
    }
  }

  lemma ComponentThen(name: seq<byte>, rest: seq<byte>)
    requires NoSlash(name) && name != [] && (rest == [] || rest[0] == SLASH)
    ensures Components(name + rest) == [name] + Components(rest)
  {
    CompLenOf(name, rest);
    assert (name + rest)[..|name|] == name && (name + rest)[|name|..] == rest;
  }

  /** The components of a path cut right after a slash are those of the two parts. */
  lemma {:induction false} ComponentsCut(a: seq<byte>, b: seq<byte>)
    requires a == [] || a[|a| - 1] == SLASH
    ensures Components(a + b) == Components(a) + Components(b)
    decreases |a|
  {
    if a == [] {
      assert a + b == b;
    } else if a[0] == SLASH {
      assert (a + b)[1..] == a[1..] + b;
      ComponentsCut(a[1..], b);
    } else {
      hide Components;
      var n := CompLen(a);
      assert n < |a| && a == a[..n] + a[n..];
      ComponentsCut(a[n..], b);
      ComponentThen(a[..n], a[n..] + b);
      ComponentThen(a[..n], a[n..]);
      assert a + b == a[..n] + (a[n..] + b);
    }
  }

  /** A slash at the end adds no component. */
  lemma {:induction false} TrailingSlash(a: seq<byte>)
    ensures Components(a + [SLASH]) == Components(a)
    decreases |a|
  {
    if a == [] {
      assert (a + [SLASH])[1..] == [];
    } else if a[0] == SLASH {
      assert (a + [SLASH])[1..] == a[1..] + [SLASH];
      TrailingSlash(a[1..]);
    } else {
      hide Components;
      var n := CompLen(a);
      assert a == a[..n] + a[n..] && a + [SLASH] == a[..n] + (a[n..] + [SLASH]);
      ComponentThen(a[..n], a[n..] + [SLASH]);
      ComponentThen(a[..n], a[n..]);
      TrailingSlash(a[n..]);
    }
  }

  lemma SingleComponent(name: seq<byte>)
    requires NoSlash(name) && name != []
    ensures Components(name) == [name]
  {
    CompLenOf(name, []);
    assert name + [] == name && name[..|name|] == name && name[|name|..] == [];
  }

  /** The parent string the write code passes to path resolution: everything up to the name,
      without one trailing slash unless nothing else is left. */
  function ParentString(head: seq<byte>): seq<byte> {
    if 1 < |head| && head[|head| - 1] == SLASH then head[..|head| - 1] else head
  }

  /** Splitting a path agrees with its components, whatever slashes it has. */
  lemma SplitAgrees(head: seq<byte>, name: seq<byte>)
    requires head != [] && head[|head| - 1] == SLASH && NoSlash(name) && name != []
    ensures Components(head + name) == Components(ParentString(head)) + [name]
  {
    ComponentsCut(head, name);
    SingleComponent(name);
    if 1 < |head| {
      assert head == head[..|head| - 1] + [SLASH];
      TrailingSlash(head[..|head| - 1]);
    }
  }

  /** The index right behind the last slash. */
  function NameStart(p: seq<byte>): (n: nat)
    ensures n <= |p| && NoSlash(p[n..]) && (0 < n ==> p[n - 1] == SLASH)
  {
    if p == [] then 0
    else if p[|p| - 1] == SLASH then |p|
    else
      var n := NameStart(p[..|p| - 1]);
      assert forall i :: 0 <= i < |p| - n - 1 ==> p[n..][i] == p[..|p| - 1][n..][i];
      n
  }

  /** Everything up to and including the last slash. */
  function HeadOf(p: seq<byte>): seq<byte> {
    p[..NameStart(p)]
  }

  /** Everything behind the last slash. */
  function NameOf(p: seq<byte>): seq<byte> {
    p[NameStart(p)..]
  }

  lemma NameStartUnique(p: seq<byte>, n: nat)
    requires 0 < n <= |p| && p[n - 1] == SLASH && NoSlash(p[n..])
    ensures NameStart(p) == n
  {
    var m := NameStart(p);
    assert forall i :: n <= i < |p| ==> p[i] == p[n..][i - n];
    assert forall i :: m <= i < |p| ==> p[i] == p[m..][i - m];
  }

  /** A path the write code takes apart: absolute, with a name, and a head of at most 255 bytes. */
  predicate Addressable(path: seq<byte>) {
    path != [] && path[0] == SLASH && NameOf(path) != [] && |HeadOf(path)| < 256
  }

  /** The parent's components and the name are the components of the path. */
  lemma AddressAgrees(path: seq<byte>)
    requires Addressable(path)
    ensures ParentString(HeadOf(path)) != [] && ParentString(HeadOf(path))[0] == SLASH
    ensures Components(path) == Components(ParentString(HeadOf(path))) + [NameOf(path)]
  {
    var n := NameStart(path);
    assert forall i :: n <= i < |path| ==> path[i] == path[n..][i - n];
    assert path == HeadOf(path) + NameOf(path);
    SplitAgrees(HeadOf(path), NameOf(path));
  }

  /** The scan for the last slash and the name behind it. */
  method SplitPath(path: seq<byte>) returns (head: seq<byte>, name: seq<byte>)
    requires path != [] && path[0] == SLASH
    ensures head == HeadOf(path) && name == NameOf(path)
  {
    var last := 0;
    var p := 0;
    while p < |path|
      invariant 0 <= p <= |path| && last < |path|
      invariant path[last] == SLASH
      invariant forall i :: last < i < p ==> path[i] != SLASH
    {
      if path[p] == SLASH {
        last := p;
      }
      p := p + 1;
    }
    var at := last;
    while at < |path| && path[at] == SLASH
      invariant last <= at <= |path| && (at == last || at == last + 1)
    {
      at := at + 1;
    }
    NameStartUnique(path, at);
    return path[..at], path[at..];
  }
}
