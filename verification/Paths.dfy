/** Paths as C strings: their slash-separated components, and the tokenizer that cuts them
    off a buffer in place. */
module Paths {

  /** Length of the leading run of characters other than a slash. */
  function NameLength(s: string): (n: nat)
    ensures n <= |s|
    ensures n < |s| ==> s[n] == '/'
    ensures forall i :: 0 <= i < n ==> s[i] != '/'
  {
    if s == "" || s[0] == '/' then 0 else 1 + NameLength(s[1..])
  }

  /** The non-empty pieces of `s` between slashes, in order. */
  function Components(s: string): (r: seq<string>) {
    if s == "" then []
    else if s[0] == '/' then Components(s[1..])
    else
      var n := NameLength(s);
      [s[..n]] + Components(s[n..])
  }

  lemma {:induction false} ComponentsAreNames(s: string)
    ensures forall c :: c in Components(s) ==> c != "" && '/' !in c
    decreases |s|
  {
    hide NameLength;
    if s != "" {
      if s[0] == '/' {
        ComponentsAreNames(s[1..]);
      } else {
        ComponentsAreNames(s[NameLength(s)..]);
      }
    }
  }

  lemma NameLengthUnique(s: string, n: nat)
    requires n <= |s| && (n < |s| ==> s[n] == '/') && forall i :: 0 <= i < n ==> s[i] != '/'
    ensures NameLength(s) == n
  {
  }

  lemma ComponentsSlash(s: string)
    ensures Components("/" + s) == Components(s)
  {
  }

  lemma ComponentsSplit(name: string, rest: string)
    requires name != "" && '/' !in name && (rest == "" || rest[0] == '/')
    ensures Components(name + rest) == [name] + Components(rest)
  {
    hide NameLength;
    var s := name + rest;
    NameLengthUnique(s, |name|);
    assert s[..|name|] == name && s[|name|..] == rest;
  }

  /** Joining two paths with a slash joins their components. */
  lemma {:induction false} ComponentsJoin(p: string, q: string)
    ensures Components(p + "/" + q) == Components(p) + Components(q)
    decreases |p|
  {
    hide Components, NameLength;
    if p == "" {
      ComponentsEmpty();
      ComponentsSlash(q);
      assert p + "/" + q == "/" + q;
    } else if p[0] == '/' {
      ComponentsJoin(p[1..], q);
      ComponentsSlash(p[1..]);
      ComponentsSlash(p[1..] + "/" + q);
      assert "/" + p[1..] == p;
      assert "/" + (p[1..] + "/" + q) == p + "/" + q;
    } else {
      var n := NameLength(p);
      var name, rest := p[..n], p[n..];
      ComponentsJoin(rest, q);
      ComponentsSplit(name, rest);
      ComponentsSplit(name, rest + "/" + q);
      assert name + rest == p;
      assert name + (rest + "/" + q) == p + "/" + q;
      assert ([name] + Components(rest)) + Components(q) == [name] + (Components(rest) + Components(q));
    }
  }

  lemma ComponentsEmpty()
    ensures Components("") == []
  {
  }

  /** A name without slashes is its own only component. */
  lemma ComponentsOfName(s: string)
    requires s != "" && '/' !in s
    ensures Components(s) == [s]
  {
    ComponentsSplit(s, "");
    ComponentsEmpty();
    assert s + "" == s;
  }

  /** The C string that starts at index `i` of a buffer. */
  function CString(b: seq<char>, i: nat): string
    decreases |b| - i
  {
    if i < |b| && b[i] != '\0' then [b[i]] + CString(b, i + 1) else ""
  }

  lemma {:induction false} CStringIs(b: seq<char>, i: nat, j: nat)
    requires i <= j < |b| && b[j] == '\0' && forall k :: i <= k < j ==> b[k] != '\0'
    ensures CString(b, i) == b[i..j]
    decreases j - i
  {
    if i < j {
      CStringIs(b, i + 1, j);
    }
  }

  lemma {:induction false} SkipSlashes(z: string, s: string)
    requires forall i :: 0 <= i < |z| ==> z[i] == '/'
    ensures Components(z + s) == Components(s)
  {
    hide Components;
    if z == "" {
      assert z + s == s;
    } else {
      SkipSlashes(z[1..], s);
      ComponentsSlash(z[1..] + s);
      assert z + s == "/" + (z[1..] + s);
    }
  }

  lemma OnlySlashes(z: string)
    requires forall i :: 0 <= i < |z| ==> z[i] == '/'
    ensures Components(z) == []
  {
  }

  /** The first component ends at the end of the path or at a slash. */
  lemma FirstComponent(z: string, name: string, rest: string)
    requires (forall i :: 0 <= i < |z| ==> z[i] == '/') && name != "" && '/' !in name
    ensures Components(z + name) == [name]
    ensures Components(z + name + "/" + rest) == [name] + Components(rest)
  {
    hide Components;
    SkipSlashes(z, name);
    ComponentsOfName(name);
    ComponentsJoin(z + name, rest);
  }

  /** `get_next_component` on the string in `buf[at..end]`: the next component, terminated in
      place, and where the rest begins; -1 when there is none. */
  method GetNextComponent(buf: array<char>, at: nat, ghost end: nat) returns (component: int, next: nat)
    requires at <= end < buf.Length && buf[end] == '\0'
    requires forall i :: at <= i < end ==> buf[i] != '\0'
    modifies buf
    ensures at <= next <= end && forall i :: next <= i < buf.Length ==> buf[i] == old(buf[i])
    ensures Components(old(buf[at..end])) == [] ==> component == -1
    ensures Components(old(buf[at..end])) != [] ==>
      && 0 <= component && CString(buf[..], component) == Components(old(buf[at..end]))[0]
      && Components(old(buf[next..end])) == Components(old(buf[at..end]))[1..]
  {
    hide Components;
    ghost var s := buf[at..end];
    component, next := at, at;
    if buf[component] == '\0' {
      OnlySlashes(s);
      component := -1;
      return;
    }
    while buf[component] == '/'
      invariant at <= component <= end
      invariant forall i :: at <= i < component ==> buf[i] == '/'
      decreases end - component
    {
      component := component + 1;
    }
    if buf[component] == '\0' {
      OnlySlashes(s);
      next := component;
      component := -1;
      return;
    }
    var stop := component;
    while buf[stop] != '\0' && buf[stop] != '/'
      invariant component <= stop <= end
      invariant forall i :: component <= i < stop ==> buf[i] != '/'
      decreases end - stop
    {
      stop := stop + 1;
    }
    ghost var name, rest := buf[component..stop], if stop < end then buf[stop + 1..end] else "";
    FirstComponent(buf[at..component], name, rest);
    assert s == if stop < end then buf[at..component] + name + "/" + rest else buf[at..component] + name;
    if buf[stop] == '/' {
      next := stop + 1;
      assert old(buf[next..end]) == rest;
      buf[stop] := '\0';
    } else {
      next := stop;
      assert old(buf[next..end]) == "";
      ComponentsEmpty();
    }
    ghost var b := buf[..];
    assert forall i :: component <= i < stop ==> b[i] == name[i - component];
    CStringIs(b, component, stop);
    assert b[component..stop] == name;
  }
}
