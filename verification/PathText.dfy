/** Path strings: lexical cleaning, the confinement check of the sandbox, and the splitting of a
    path into parent and base name. */
module PathText {
  import opened Int64

  // ------------------------------------------------------------------ text and components

  predicate ValidName(n: string) {
    n != "" && n != "." && n != ".." && '/' !in n
  }

  predicate ValidNames(cs: seq<string>) {
    forall i :: 0 <= i < |cs| ==> ValidName(cs[i])
  }

  /** The pieces of `s` between slashes; empty pieces are kept. */
  function Split(s: string): (cs: seq<string>)
    ensures |cs| >= 1
    ensures forall i :: 0 <= i < |cs| ==> '/' !in cs[i]
  {
    if s == "" then [""] else
      var rest := Split(s[1..]);
      if s[0] == '/' then [""] + rest else [[s[0]] + rest[0]] + rest[1..]
  }

  function Join(cs: seq<string>): string {
    if cs == [] then "" else if |cs| == 1 then cs[0] else cs[0] + "/" + Join(cs[1..])
  }

  lemma {:induction false} SplitPlain(s: string)
    requires '/' !in s
    ensures Split(s) == [s]
  {
    if s != "" {
      assert s[0] in s && forall c :: c in s[1..] ==> c in s;
      SplitPlain(s[1..]);
      assert [s[0]] + s[1..] == s;
    }
  }

  /** Splitting is compositional at a slash. */
  lemma {:induction false} SplitAtSlash(a: string, b: string)
    ensures Split(a + "/" + b) == Split(a) + Split(b)
  {
    var s := a + "/" + b;
    if a == "" {
      assert s[1..] == b;
    } else {
      assert s[1..] == a[1..] + "/" + b;
      SplitAtSlash(a[1..], b);
    }
  }

  lemma {:induction false} SplitJoin(cs: seq<string>)
    requires cs != []
    requires forall i :: 0 <= i < |cs| ==> '/' !in cs[i]
    ensures Split(Join(cs)) == cs
  {
    SplitPlain(cs[0]);
    if |cs| > 1 {
      SplitJoin(cs[1..]);
      SplitAtSlash(cs[0], Join(cs[1..]));
      assert [cs[0]] + cs[1..] == cs;
    }
  }

  lemma {:induction false} JoinSplit(s: string)
    ensures Join(Split(s)) == s
  {
    if s != "" {
      JoinSplit(s[1..]);
      var rest := Split(s[1..]);
      if s[0] == '/' {
        assert ([""] + rest)[1..] == rest;
      } else {
        assert ([[s[0]] + rest[0]] + rest[1..])[1..] == rest[1..];
      }
    }
  }

  lemma {:induction false} JoinAppend(xs: seq<string>, ys: seq<string>)
    requires xs != [] && ys != []
    ensures Join(xs + ys) == Join(xs) + "/" + Join(ys)
  {
    if |xs| == 1 {
      assert (xs + ys)[1..] == ys;
    } else {
      assert (xs + ys)[1..] == xs[1..] + ys;
      JoinAppend(xs[1..], ys);
    }
  }

  lemma JoinNonEmpty(cs: seq<string>)
    requires cs != [] && cs[0] != ""
    ensures Join(cs) != "" && Join(cs)[0] == cs[0][0]
  {
  }

  // ------------------------------------------------------------------ lexical cleaning

  /** One step of lexical resolution: empty and "." are dropped, ".." removes the last name. */
  function Push(st: seq<string>, c: string, rooted: bool): seq<string> {
    if c == "" || c == "." then st
    else if c == ".." then
      if st != [] && st[|st| - 1] != ".." then st[..|st| - 1]
      else if rooted then st else st + [".."]
    else st + [c]
  }

  function Reduce(st: seq<string>, cs: seq<string>, rooted: bool): seq<string>
    decreases |cs|
  {
    if cs == [] then st else Reduce(Push(st, cs[0], rooted), cs[1..], rooted)
  }

  lemma {:induction false} ReduceAppend(st: seq<string>, xs: seq<string>, ys: seq<string>, rooted: bool)
    ensures Reduce(st, xs + ys, rooted) == Reduce(Reduce(st, xs, rooted), ys, rooted)
    decreases |xs|
  {
    if xs == [] {
      assert xs + ys == ys;
    } else {
      assert (xs + ys)[1..] == xs[1..] + ys;
      ReduceAppend(Push(st, xs[0], rooted), xs[1..], ys, rooted);
    }
  }

  /** Plain names are only ever appended. */
  lemma {:induction false} ReduceValid(st: seq<string>, cs: seq<string>, rooted: bool)
    requires ValidNames(cs)
    ensures Reduce(st, cs, rooted) == st + cs
    decreases |cs|
  {
    if cs != [] {
      assert ValidName(cs[0]);
      ReduceValid(st + [cs[0]], cs[1..], rooted);
      assert st + [cs[0]] + cs[1..] == st + cs;
    }
  }

  /** Starting from a rooted clean path, resolution stays a rooted clean path. */
  lemma {:induction false} ReduceStaysValid(st: seq<string>, cs: seq<string>)
    requires ValidNames(st)
    requires forall i :: 0 <= i < |cs| ==> '/' !in cs[i]
    ensures ValidNames(Reduce(st, cs, true))
    decreases |cs|
  {
    if cs != [] {
      ReduceStaysValid(Push(st, cs[0], true), cs[1..]);
    }
  }

  /** filepath.Clean */
  function Clean(s: string): string {
    if s == "" then "." else
      var rooted := s[0] == '/';
      var cs := Reduce([], Split(s), rooted);
      if rooted then "/" + Join(cs) else if cs == [] then "." else Join(cs)
  }

  /** filepath.Join of two elements; empty elements are ignored. */
  function JoinTwo(a: string, b: string): string {
    if a == "" then (if b == "" then "" else Clean(b))
    else if b == "" then Clean(a)
    else Clean(a + "/" + b)
  }

  function TrimPrefix(s: string, prefix: string): string {
    if prefix <= s then s[|prefix|..] else s
  }

  function TrimSuffix(s: string, suffix: string): string {
    if |suffix| <= |s| && s[|s| - |suffix|..] == suffix then s[..|s| - |suffix|] else s
  }

  lemma CleanRooted(cs: seq<string>)
    requires ValidNames(cs)
    ensures Clean("/" + Join(cs)) == "/" + Join(cs)
  {
    var s := "/" + Join(cs);
    assert s[1..] == Join(cs);
    if cs == [] {
      assert Split(s) == ["", ""];
      assert Reduce([], ["", ""], true) == Reduce([], [""], true) == [];
    } else {
      SplitJoin(cs);
      assert Split(s) == [""] + cs;
      assert ([""] + cs)[1..] == cs;
      ReduceValid([], cs, true);
      assert [] + cs == cs;
    }
  }

  // ------------------------------------------------------------------ confinement

  datatype Confined = Inside(name: string) | BadPathResolution

  /** The sandbox base: absolute, clean, and not the root directory itself. */
  predicate ValidBase(base: string) {
    base != "" && base[0] == '/' && ValidNames(Split(base[1..]))
  }

  function BaseNames(base: string): (b: seq<string>)
    requires ValidBase(base)
    ensures ValidNames(b) && b != []
  {
    Split(base[1..])
  }

  predicate IsPathInsideOfBase(base: string, path: string) {
    base + "/" <= TrimSuffix(path, "/") + "/"
  }

  function UnsafePath(base: string, path: string): Confined {
    var r := Clean(JoinTwo(base, TrimPrefix(path, base)));
    if IsPathInsideOfBase(base, r) then
      var rel := TrimPrefix(TrimPrefix(r, base), "/");
      if rel == "" then Inside(".") else Inside(rel)
    else BadPathResolution
  }

  /** Where `path` leads lexically, starting in the base directory. */
  function Target(base: string, path: string): (c: seq<string>)
    requires ValidBase(base)
  {
    Reduce(BaseNames(base), Split(TrimPrefix(path, base)), true)
  }

  lemma BaseText(base: string)
    requires ValidBase(base)
    ensures base == "/" + Join(BaseNames(base))
  {
    JoinSplit(base[1..]);
  }

  lemma CleanedTarget(base: string, path: string)
    requires ValidBase(base)
    ensures ValidNames(Target(base, path))
    ensures Clean(JoinTwo(base, TrimPrefix(path, base))) == "/" + Join(Target(base, path))
  {
    var b, q := BaseNames(base), TrimPrefix(path, base);
    var c := Target(base, path);
    ReduceStaysValid(b, Split(q));
    BaseText(base);
    assert Split(base) == [""] + b;
    assert ([""] + b)[1..] == b;
    ReduceValid([], b, true);
    assert Reduce([], Split(base), true) == b;
    if q == "" {
      assert Reduce(b, [""], true) == Reduce(b, [], true) == b;
    } else {
      SplitAtSlash(base, q);
      ReduceAppend([], Split(base), Split(q), true);
      assert (base + "/" + q)[0] == '/';
    }
    assert JoinTwo(base, q) == "/" + Join(c);
    CleanRooted(c);
  }

  lemma SplitWithSlash(cs: seq<string>)
    requires ValidNames(cs) && cs != []
    ensures Split(Join(cs) + "/") == cs + [""]
  {
    SplitAtSlash(Join(cs), "");
    assert Join(cs) + "/" + "" == Join(cs) + "/";
    SplitJoin(cs);
  }

  lemma TextPrefixIsNamePrefix(b: seq<string>, c: seq<string>)
    requires ValidNames(b) && ValidNames(c) && b != [] && c != []
    requires Join(b) + "/" <= Join(c) + "/"
    ensures b <= c
  {
    var rest := (Join(c) + "/")[|Join(b)| + 1..];
    assert Join(c) + "/" == Join(b) + "/" + rest;
    SplitAtSlash(Join(b), rest);
    SplitJoin(b);
    SplitWithSlash(c);
    var whole := c + [""];
    assert whole == b + Split(rest);
    assert forall i :: 0 <= i < |b| ==> whole[i] == b[i] && b[i] != "";
    assert whole[|c|] == "";
    assert |b| <= |c|;
  }

  lemma NamePrefixIsTextPrefix(b: seq<string>, c: seq<string>)
    requires b != [] && b <= c
    ensures Join(b) + "/" <= Join(c) + "/"
  {
    assert c == b + c[|b|..];
    if |b| < |c| {
      JoinAppend(b, c[|b|..]);
      assert Join(c) + "/" == Join(b) + "/" + (Join(c[|b|..]) + "/");
    } else {
      assert b == c;
    }
  }

  /** A textual prefix test with slashes added is the component prefix test. */
  lemma PrefixText(b: seq<string>, c: seq<string>)
    requires ValidNames(b) && ValidNames(c) && b != []
    ensures c != [] ==> (Join(b) + "/" <= Join(c) + "/" <==> b <= c)
    ensures c == [] ==> !(Join(b) + "/" <= "")
  {
    if c != [] && Join(b) + "/" <= Join(c) + "/" {
      TextPrefixIsNamePrefix(b, c);
    }
    if c != [] && b <= c {
      NamePrefixIsTextPrefix(b, c);
    }
  }

  lemma InsideMeaning(base: string, c: seq<string>)
    requires ValidBase(base) && ValidNames(c)
    ensures IsPathInsideOfBase(base, "/" + Join(c)) <==> BaseNames(base) <= c
  {
    var b := BaseNames(base);
    BaseText(base);
    PrefixText(b, c);
    assert base + "/" == "/" + (Join(b) + "/");
    TrimmedText(c);
    ConsPrefix('/', Join(b) + "/", if c == [] then "" else Join(c) + "/");
  }

  lemma TrimmedText(c: seq<string>)
    requires ValidNames(c)
    ensures TrimSuffix("/" + Join(c), "/") + "/" == ['/'] + (if c == [] then "" else Join(c) + "/")
  {
    var r := "/" + Join(c);
    if c == [] {
      assert r == "/";
    } else {
      JoinEndsInName(c);
      assert r[|r| - 1..][0] == Join(c)[|Join(c)| - 1];
      assert TrimSuffix(r, "/") == r;
    }
  }

  lemma PrefixTrimmed(x: string, y: string)
    ensures TrimPrefix(x + y, x) == y
  {
  }

  lemma RelativeMeaning(base: string, c: seq<string>)
    requires ValidBase(base) && ValidNames(c) && BaseNames(base) <= c
    ensures var b := BaseNames(base);
      TrimPrefix(TrimPrefix("/" + Join(c), base), "/") == if c == b then "" else Join(c[|b|..])
    ensures c != BaseNames(base) ==> Join(c[|BaseNames(base)|..]) != ""
  {
    var b, rest := BaseNames(base), c[|BaseNames(base)|..];
    BaseText(base);
    assert c == b + rest;
    if rest == [] {
      assert c == b;
      PrefixTrimmed(base, "");
      assert base + "" == base;
    } else {
      assert ValidName(rest[0]) by { assert rest[0] == c[|b|]; }
      JoinNonEmpty(rest);
      JoinAppend(b, rest);
      assert "/" + Join(c) == base + ("/" + Join(rest));
      PrefixTrimmed(base, "/" + Join(rest));
      PrefixTrimmed("/", Join(rest));
    }
  }

  /** unsafePath succeeds exactly for the paths whose lexical target has the base's components as a
      prefix, and the result is the remainder: text and components agree. */
  lemma UnsafePathMeaning(base: string, path: string)
    requires ValidBase(base)
    ensures var b, c := BaseNames(base), Target(base, path);
      UnsafePath(base, path) ==
        if !(b <= c) then BadPathResolution
        else if c == b then Inside(".")
        else Inside(Join(c[|b|..]))
  {
    var b, c := BaseNames(base), Target(base, path);
    CleanedTarget(base, path);
    InsideMeaning(base, c);
    if b <= c {
      RelativeMeaning(base, c);
    }
  }

  lemma ConsPrefix(h: char, x: string, y: string)
    ensures [h] + x <= [h] + y <==> x <= y
  {
    if [h] + x <= [h] + y {
      assert forall i :: 0 <= i < |x| ==> x[i] == ([h] + x)[i + 1] == ([h] + y)[i + 1] == y[i];
    }
  }

  lemma {:induction false} JoinEndsInName(c: seq<string>)
    requires ValidNames(c) && c != []
    ensures Join(c) != "" && Join(c)[|Join(c)| - 1] != '/'
    ensures Join(c)[0] != '/'
  {
    assert ValidName(c[0]);
    JoinNonEmpty(c);
    if |c| > 1 {
      JoinEndsInName(c[1..]);
    } else {
      assert c[0][|c[0]| - 1] in c[0];
    }
    assert c[0][0] in c[0];
  }

  /** What an accepted path looks like: a list of plain names below the base. */
  function Names(name: string): seq<string> {
    if name == "." then [] else Split(name)
  }

  function PathName(cs: seq<string>): string {
    if cs == [] then "." else Join(cs)
  }

  lemma NamesOfPathName(cs: seq<string>)
    requires ValidNames(cs)
    ensures Names(PathName(cs)) == cs
    ensures cs != [] ==> PathName(cs) != "."
  {
    if cs != [] {
      SplitJoin(cs);
      assert ValidName(cs[0]);
      SplitPlain(".");
      assert Split(Join(cs))[0] != ".";
    }
  }

  lemma UnsafePathNames(base: string, path: string)
    requires ValidBase(base)
    ensures ValidNames(Target(base, path))
    ensures var b, c := BaseNames(base), Target(base, path);
      UnsafePath(base, path) == if b <= c then Inside(PathName(c[|b|..])) else BadPathResolution
  {
    UnsafePathMeaning(base, path);
    CleanedTarget(base, path);
  }

  lemma RemainderNames(b: seq<string>, c: seq<string>)
    requires ValidNames(c) && b <= c
    ensures ValidNames(c[|b|..]) && Names(PathName(c[|b|..])) == c[|b|..]
    ensures b + c[|b|..] == c
  {
    NamesOfPathName(c[|b|..]);
  }

  /** Normal form: an accepted result has no empty, "." or ".." component (or is "."), and it leads
      to the same place as the path it came from. */
  lemma UnsafePathNormalForm(base: string, path: string)
    requires ValidBase(base)
    ensures var u := UnsafePath(base, path);
      u.Inside? ==>
        && ValidNames(Names(u.name))
        && PathName(Names(u.name)) == u.name
        && Target(base, path) == BaseNames(base) + Names(u.name)
  {
    UnsafePathNames(base, path);
    var b, c := BaseNames(base), Target(base, path);
    if b <= c {
      RemainderNames(b, c);
    }
  }

  /** A relative list of plain names is accepted as it is. */
  lemma UnsafePathOfNames(base: string, cs: seq<string>)
    requires ValidBase(base) && ValidNames(cs)
    ensures UnsafePath(base, PathName(cs)) == Inside(PathName(cs))
  {
    var name := PathName(cs);
    var b := BaseNames(base);
    if cs == [] {
      assert name[0] == '.';
    } else {
      JoinEndsInName(cs);
    }
    assert base[0] != name[0];
    assert !(base <= name);
    UnsafePathMeaning(base, name);
    if cs == [] {
      SplitPlain(".");
      assert Reduce(b, ["."], true) == Reduce(b, [], true) == b;
    } else {
      SplitJoin(cs);
      ReduceValid(b, cs, true);
      assert (b + cs)[|b|..] == cs;
    }
  }

  /** An accepted result is a fixed point. */
  lemma UnsafePathIdempotent(base: string, path: string)
    requires ValidBase(base)
    ensures var u := UnsafePath(base, path); u.Inside? ==> UnsafePath(base, u.name) == u
  {
    UnsafePathNormalForm(base, path);
    var u := UnsafePath(base, path);
    if u.Inside? {
      UnsafePathOfNames(base, Names(u.name));
    }
  }

  /** A rooted path that does not begin with the text of the base is taken relative to the base.
      When it does begin with it, that text is cut off first, even in the middle of a name. */
  lemma UnsafePathOfRooted(base: string, cs: seq<string>)
    requires ValidBase(base) && ValidNames(cs)
    requires !(base <= "/" + Join(cs))
    ensures UnsafePath(base, "/" + Join(cs)) == Inside(PathName(cs))
  {
    var b, path := BaseNames(base), "/" + Join(cs);
    UnsafePathMeaning(base, path);
    assert path[1..] == Join(cs);
    if cs == [] {
      assert Split(path) == ["", ""];
      assert Reduce(b, ["", ""], true) == Reduce(b, [""], true) == Reduce(b, [], true) == b;
    } else {
      SplitJoin(cs);
      assert Split(path) == [""] + cs;
      assert ([""] + cs)[1..] == cs;
      ReduceValid(b, cs, true);
      assert (b + cs)[|b|..] == cs;
    }
  }

  /** The textual trimming of the base is not component-wise: with base "/a", the path "/ab"
      leads to "b", not to "ab". */
  lemma BaseTextCutInsideName()
    ensures ValidBase("/a") && UnsafePath("/a", "/ab") == Inside("b")
  {
    SplitPlain("a");
    SplitPlain("b");
    assert "/a"[1..] == "a";
    assert TrimPrefix("/ab", "/a") == "b";
    UnsafePathMeaning("/a", "/ab");
    assert ValidNames(["b"]);
    ReduceValid(["a"], ["b"], true);
    assert (["a"] + ["b"])[1..] == ["b"];
  }

  // ------------------------------------------------------------------ what the components mean

  /** Pieces of a path that is given relative to the base, in any spelling. */
  predicate Relative(base: string, cs: seq<string>) {
    cs != [] && (forall i :: 0 <= i < |cs| ==> '/' !in cs[i]) && !(base <= Join(cs))
  }

  lemma RelativeTarget(base: string, cs: seq<string>)
    requires ValidBase(base) && Relative(base, cs)
    ensures Target(base, Join(cs)) == Reduce(BaseNames(base), cs, true)
  {
    SplitJoin(cs);
  }

  /** Where the components lead; no components are the base itself. */
  function Resolved(base: string, cs: seq<string>): Confined {
    if cs == [] then Inside(".") else UnsafePath(base, Join(cs))
  }

  lemma SameTarget(base: string, cs: seq<string>, ds: seq<string>)
    requires ValidBase(base) && Relative(base, cs) && (ds == [] || Relative(base, ds))
    requires Reduce(BaseNames(base), cs, true) == Reduce(BaseNames(base), ds, true)
    ensures Resolved(base, cs) == Resolved(base, ds)
  {
    RelativeTarget(base, cs);
    UnsafePathMeaning(base, Join(cs));
    if ds != [] {
      RelativeTarget(base, ds);
      UnsafePathMeaning(base, Join(ds));
    }
  }

  /** A name followed by ".." cancels out, whatever is before and after it. */
  lemma NameThenUp(base: string, xs: seq<string>, n: string, ys: seq<string>)
    requires ValidBase(base) && ValidName(n) && Relative(base, xs + [n, ".."] + ys)
    requires xs + ys == [] || Relative(base, xs + ys)
    ensures Resolved(base, xs + [n, ".."] + ys) == Resolved(base, xs + ys)
  {
    var b := BaseNames(base);
    var st := Reduce(b, xs, true);
    ReduceAppend(b, xs + [n, ".."], ys, true);
    ReduceAppend(b, xs, [n, ".."], true);
    ReduceAppend(b, xs, ys, true);
    assert [n, ".."][1..] == [".."];
    assert Reduce(st, [n, ".."], true) == Reduce(st + [n], [".."], true) == Reduce(st, [], true) by {
      assert (st + [n])[..|st|] == st;
    }
    SameTarget(base, xs + [n, ".."] + ys, xs + ys);
  }

  /** Empty components and "." mean nothing. */
  lemma DotsVanish(base: string, xs: seq<string>, c: string, ys: seq<string>)
    requires ValidBase(base) && (c == "" || c == ".") && Relative(base, xs + [c] + ys)
    requires xs + ys == [] || Relative(base, xs + ys)
    ensures Resolved(base, xs + [c] + ys) == Resolved(base, xs + ys)
  {
    var b := BaseNames(base);
    ReduceAppend(b, xs + [c], ys, true);
    ReduceAppend(b, xs, [c], true);
    ReduceAppend(b, xs, ys, true);
    SameTarget(base, xs + [c] + ys, xs + ys);
  }

  function Ups(k: nat): seq<string> {
    if k == 0 then [] else [".."] + Ups(k - 1)
  }

  lemma {:induction false} ReduceUps(st: seq<string>, k: nat)
    requires ValidNames(st)
    ensures Reduce(st, Ups(k), true) == st[..Max(0, |st| - k)]
  {
    if k > 0 {
      assert ([".."] + Ups(k - 1))[1..] == Ups(k - 1);
      if st != [] {
        assert ValidName(st[|st| - 1]);
        var st' := st[..|st| - 1];
        ReduceUps(st', k - 1);
        assert st'[..Max(0, |st'| - (k - 1))] == st[..Max(0, |st| - k)];
      } else {
        ReduceUps(st, k - 1);
      }
    }
  }

  lemma {:induction false} UpsPlain(k: nat)
    ensures |Ups(k)| == k && forall i :: 0 <= i < k ==> Ups(k)[i] == ".."
  {
    if k > 0 {
      UpsPlain(k - 1);
    }
  }

  lemma UpsRelative(base: string, k: nat, ns: seq<string>)
    requires ValidBase(base) && ValidNames(ns) && Ups(k) + ns != []
    ensures Relative(base, Ups(k) + ns) && Join(Ups(k) + ns) != ""
  {
    var cs := Ups(k) + ns;
    UpsPlain(k);
    assert cs[0] == ".." || ValidName(cs[0]);
    assert cs[0][0] in cs[0];
    JoinNonEmpty(cs);
  }

  lemma ReducedUps(st: seq<string>, k: nat, ns: seq<string>)
    requires ValidNames(st) && ValidNames(ns)
    ensures Reduce(st, Ups(k) + ns, true) == st[..Max(0, |st| - k)] + ns
  {
    ReduceAppend(st, Ups(k), ns, true);
    ReduceUps(st, k);
    ReduceValid(st[..Max(0, |st| - k)], ns, true);
  }

  /** Climbing `k` times and going down along `ns` leaves the base, but never climbs above the root; it
      is accepted if and only if it comes back into the base, and then leads to what is left of it. */
  lemma UpsAndNames(base: string, k: nat, ns: seq<string>)
    requires ValidBase(base) && ValidNames(ns) && Ups(k) + ns != []
    ensures var b := BaseNames(base);
      var c := b[..Max(0, |b| - k)] + ns;
      UnsafePath(base, Join(Ups(k) + ns)) == if b <= c then Inside(PathName(c[|b|..])) else BadPathResolution
  {
    UpsRelative(base, k, ns);
    ReducedUps(BaseNames(base), k, ns);
    hide *;
    var path := Join(Ups(k) + ns);
    RelativeTarget(base, Ups(k) + ns);
    UnsafePathNames(base, path);
  }

  /** The text of the base in front of a path is taken off once. */
  lemma BaseIsTrimmed(base: string, rest: string)
    requires ValidBase(base) && !(base <= rest)
    ensures UnsafePath(base, base + rest) == UnsafePath(base, rest)
  {
    assert TrimPrefix(base + rest, base) == rest;
  }

  /** Joining two clean paths puts the names one after the other. */
  lemma JoinTwoNames(d: seq<string>, ns: seq<string>)
    requires ValidNames(d) && ValidNames(ns) && ns != []
    ensures JoinTwo("/" + Join(d), Join(ns)) == "/" + Join(d + ns)
    ensures d != [] ==> JoinTwo(Join(d), Join(ns)) == Join(d + ns)
  {
    hide Clean, Reduce, Split;
    JoinEndsInName(ns);
    assert Join(ns) != "";
    if d == [] {
      RootJoin(ns);
      assert d + ns == ns && "/" + Join(d) == "/";
    } else {
      JoinEndsInName(d);
      JoinAppend(d, ns);
      assert "/" + Join(d) + "/" + Join(ns) == "/" + Join(d + ns);
      CleanRooted(d + ns);
      CleanRelative(d + ns);
    }
  }

  lemma CleanRelative(cs: seq<string>)
    requires ValidNames(cs) && cs != []
    ensures Clean(Join(cs)) == Join(cs)
  {
    JoinEndsInName(cs);
    SplitJoin(cs);
    ReduceValid([], cs, false);
    assert [] + cs == cs;
  }

  /** The length of the names with one separator each. */
  ghost function Weight(cs: seq<string>): nat {
    if cs == [] then 0 else |cs[0]| + 1 + Weight(cs[1..])
  }

  lemma {:induction false} WeightAppend(a: seq<string>, b: seq<string>)
    ensures Weight(a + b) == Weight(a) + Weight(b)
  {
    if a == [] {
      assert a + b == b;
    } else {
      assert (a + b)[1..] == a[1..] + b;
      WeightAppend(a[1..], b);
    }
  }

  lemma {:induction false} WeightOfSplit(s: string)
    ensures Weight(Split(s)) == |s| + 1
  {
    if s != "" {
      WeightOfSplit(s[1..]);
      var rest := Split(s[1..]);
      if s[0] == '/' {
        assert ([""] + rest)[1..] == rest;
      } else {
        assert ([[s[0]] + rest[0]] + rest[1..])[1..] == rest[1..];
      }
    }
  }

  lemma {:induction false} WeightOfReduce(st: seq<string>, cs: seq<string>)
    ensures Weight(Reduce(st, cs, true)) <= Weight(st) + Weight(cs)
    decreases |cs|
  {
    if cs != [] {
      var st' := Push(st, cs[0], true);
      if st' == st + [cs[0]] {
        WeightAppend(st, [cs[0]]);
      } else if st != [] && st' == st[..|st| - 1] {
        assert st == st[..|st| - 1] + [st[|st| - 1]];
        WeightAppend(st[..|st| - 1], [st[|st| - 1]]);
      }
      WeightOfReduce(st', cs[1..]);
    }
  }

  /** A rooted list of names leads to itself if and only if it does not begin with the text of the
      base. */
  lemma RootedInPlace(base: string, cs: seq<string>)
    requires ValidBase(base) && ValidNames(cs) && cs != []
    ensures UnsafePath(base, "/" + Join(cs)) == Inside(PathName(cs)) <==> !(base <= "/" + Join(cs))
  {
    var path := "/" + Join(cs);
    if base <= path {
      var b, c, r := BaseNames(base), Target(base, path), TrimPrefix(path, base);
      UnsafePathNames(base, path);
      WeightOfSplit(r);
      WeightOfReduce(b, Split(r));
      SplitJoin(cs);
      WeightOfSplit(Join(cs));
      BaseText(base);
      assert ValidName(b[0]);
      JoinNonEmpty(b);
      assert |base| >= 2 && |r| < |Join(cs)|;
      if b <= c {
        RemainderNames(b, c);
        WeightAppend(b, c[|b|..]);
        NamesOfPathName(cs);
        assert c[|b|..] != cs;
      }
    } else {
      UnsafePathOfRooted(base, cs);
    }
  }

  lemma RootJoin(cs: seq<string>)
    requires ValidNames(cs) && cs != []
    ensures JoinTwo("/", Join(cs)) == "/" + Join(cs)
  {
    JoinEndsInName(cs);
    var s := "/" + "/" + Join(cs);
    assert s[1..] == "/" + Join(cs) && s[1..][1..] == Join(cs);
    SplitJoin(cs);
    assert Split(s[1..]) == [""] + cs;
    assert Split(s) == [""] + ([""] + cs);
    DropTwoEmpty(cs);
    ReduceValid([], cs, true);
    assert [] + cs == cs;
  }

  lemma DropTwoEmpty(cs: seq<string>)
    ensures Reduce([], [""] + ([""] + cs), true) == Reduce([], cs, true)
  {
    assert ([""] + ([""] + cs))[1..] == [""] + cs;
    assert ([""] + cs)[1..] == cs;
  }

  // ------------------------------------------------------------------ parent and base name

  /** The index of the last slash, or -1. */
  function LastSlash(s: string): (i: int)
    ensures -1 <= i < |s|
    ensures i >= 0 ==> s[i] == '/'
    ensures forall j :: i < j < |s| ==> s[j] != '/'
  {
    if s == "" then -1 else if s[|s| - 1] == '/' then |s| - 1 else LastSlash(s[..|s| - 1])
  }

  /** filepath.Dir */
  function DirOf(s: string): string {
    Clean(s[..LastSlash(s) + 1])
  }

  /** Whether the final component is ".". */
  predicate EndsWithDot(path: string) {
    path == "." || (|path| >= 2 && path[|path| - 1] == '.' && path[|path| - 2] == '/')
  }

  lemma EndsWithDotOf(path: string)
    ensures EndsWithDot(path) <==> path == "." || (|path| >= 2 && path[|path| - 2..] == "/.")
  {
    if |path| >= 2 {
      assert path[|path| - 2..][0] == path[|path| - 2] && path[|path| - 2..][1] == path[|path| - 1];
    }
  }

  function SkipLeading(path: string): string {
    if |path| > 1 && path[0] == '/' && path[1] == '/' then SkipLeading(path[1..]) else path
  }

  function SkipTrailing(path: string): string {
    if |path| > 1 && path[|path| - 1] == '/' then SkipTrailing(path[..|path| - 1]) else path
  }

  /** What splitPath and basename work on: one leading slash at most, no trailing slash. */
  function Cut(path: string): (string, string) {
    var t := SkipTrailing(SkipLeading(path));
    var i := if |t| <= 1 then -1 else LastSlash(t);
    if i < 0 then (".", t) else (if i == 0 then "/" else t[..i], t[i + 1..])
  }

  method SplitPath(path: string) returns (dirname: string, basename: string)
    ensures (dirname, basename) == Cut(path)
  {
    dirname := ".";
    var p := path;
    while |p| > 1 && p[0] == '/' && p[1] == '/'
      invariant SkipLeading(p) == SkipLeading(path)
      decreases |p|
    {
      p := p[1..];
    }
    var i := |p| - 1;
    while i > 0 && p[i] == '/'
      invariant i == |p| - 1
      invariant SkipTrailing(p) == SkipTrailing(SkipLeading(path))
    {
      p := p[..i];
      i := i - 1;
    }
    assert p == SkipTrailing(SkipLeading(path));
    basename := p;
    i := i - 1;
    while i >= 0
      invariant i <= |p| - 2
      invariant |p| > 1 ==> forall j :: Max(i, -1) < j < |p| ==> p[j] != '/'
      invariant dirname == "." && basename == p
    {
      if p[i] == '/' {
        LastSlashIs(p, i);
        if i == 0 {
          dirname := p[..1];
          assert p[..1] == "/";
        } else {
          dirname := p[..i];
        }
        basename := p[i + 1..];
        assert Cut(path) == (if i == 0 then "/" else p[..i], p[i + 1..]);
        return;
      }
      i := i - 1;
    }
  }

  lemma LastSlashIs(p: string, i: int)
    requires 0 <= i < |p| && p[i] == '/'
    requires forall j :: i < j < |p| ==> p[j] != '/'
    ensures LastSlash(p) == i
  {
    assert LastSlash(p) <= i;
  }

  lemma {:induction false} LastSlashAfter(x: string, n: string)
    requires '/' !in n
    ensures LastSlash(x + "/" + n) == |x|
  {
    var s := x + "/" + n;
    if n != "" {
      var k := |n| - 1;
      assert n[k] in n && forall c :: c in n[..k] ==> c in n;
      assert s[..|s| - 1] == x + "/" + n[..k];
      assert s[|s| - 1] == n[k];
      LastSlashAfter(x, n[..k]);
    }
  }

  lemma NoSlash(s: string)
    requires '/' !in s
    ensures LastSlash(s) == -1
  {
    assert forall j :: 0 <= j < |s| ==> s[j] in s;
  }

  lemma JoinLast(cs: seq<string>)
    requires |cs| > 1
    ensures Join(cs) == Join(cs[..|cs| - 1]) + "/" + cs[|cs| - 1]
  {
    var n := |cs| - 1;
    assert cs == cs[..n] + [cs[n]];
    JoinAppend(cs[..n], [cs[n]]);
  }

  lemma SkipsNothing(s: string)
    requires s != "" && s[0] != '/' && s[|s| - 1] != '/'
    ensures SkipTrailing(SkipLeading(s)) == s
  {
  }

  lemma CutAfter(x: string, n: string)
    requires '/' !in n && n != "" && x != "" && x[0] != '/'
    ensures Cut(x + "/" + n) == (x, n)
  {
    var s := x + "/" + n;
    assert s[0] == x[0];
    assert s[|s| - 1] == n[|n| - 1] && n[|n| - 1] in n;
    SkipsNothing(s);
    LastSlashAfter(x, n);
    assert s[..|x|] == x && s[|x| + 1..] == n;
  }

  /** Where a backward scan for the last slash of a list of names stops. */
  lemma LastSlashOfNames(cs: seq<string>)
    requires ValidNames(cs) && cs != []
    ensures |cs| == 1 ==> LastSlash(Join(cs)) == -1
    ensures |cs| > 1 ==>
      && LastSlash(Join(cs)) == |Join(cs[..|cs| - 1])| > 0
      && Join(cs)[..LastSlash(Join(cs))] == Join(cs[..|cs| - 1])
  {
    var n := |cs| - 1;
    assert ValidName(cs[n]);
    if n == 0 {
      NoSlash(cs[0]);
    } else {
      JoinLast(cs);
      JoinEndsInName(cs[..n]);
      LastSlashAfter(Join(cs[..n]), cs[n]);
    }
  }

  /** On the normal form that RemoveAll hands over, SplitPath separates the last name. */
  lemma CutNames(cs: seq<string>)
    requires ValidNames(cs) && cs != []
    ensures Join(cs) != ""
    ensures Cut(Join(cs)) == (PathName(cs[..|cs| - 1]), cs[|cs| - 1])
  {
    var s, n := Join(cs), |cs| - 1;
    JoinEndsInName(cs);
    assert ValidName(cs[n]);
    if n == 0 {
      SkipsNothing(s);
      NoSlash(s);
    } else {
      JoinLast(cs);
      JoinEndsInName(cs[..n]);
      CutAfter(Join(cs[..n]), cs[n]);
    }
  }

  /** The normal form never names ".", so RemoveAll's own check never fires on it. */
  lemma NamesDoNotEndWithDot(cs: seq<string>)
    requires ValidNames(cs) && cs != []
    ensures !EndsWithDot(Join(cs))
  {
    var last := cs[|cs| - 1];
    assert ValidName(last);
    if |cs| > 1 {
      JoinLast(cs);
    }
    assert |cs| == 1 ==> Join(cs) == last;
    hide Join;
    NameDoesNotEndWithDot(if |cs| > 1 then Join(cs[..|cs| - 1]) + "/" else "", last);
    assert "" + last == last;
  }

  lemma NameDoesNotEndWithDot(before: string, last: string)
    requires ValidName(last) && (before == "" || before[|before| - 1] == '/')
    ensures !EndsWithDot(before + last)
  {
    var s := before + last;
    assert forall j :: 0 <= j < |last| ==> last[j] in last && s[|before| + j] == last[j];
    assert |last| == 1 ==> last == [last[0]];
  }

  lemma DirOfAfter(d: string, n: string)
    requires '/' !in n
    ensures DirOf(d + "/" + n) == Clean(d + "/")
  {
    var s := d + "/" + n;
    LastSlashAfter(d, n);
    assert s[..|d| + 1] == d + "/";
  }

  lemma DirOfSingle(n: string)
    requires ValidName(n)
    ensures DirOf("/" + n) == "/"
  {
    DirOfAfter("", n);
    assert "" + "/" + n == "/" + n;
    CleanRooted([]);
    assert "/" + Join([]) == "/";
    assert "" + "/" == "/";
  }

  lemma DirOfNested(cs: seq<string>, n: string)
    requires ValidNames(cs) && cs != [] && ValidName(n)
    ensures DirOf("/" + (Join(cs) + "/" + n)) == "/" + Join(cs)
  {
    var d := "/" + Join(cs);
    assert d + "/" + n == "/" + (Join(cs) + "/" + n);
    DirOfAfter(d, n);
    TrailingSlashCleaned(cs);
  }

  /** The parent text of a rooted list of names, as Write computes it, is the rooted parent list. */
  lemma DirOfRooted(cs: seq<string>)
    requires ValidNames(cs) && cs != []
    ensures DirOf("/" + Join(cs)) == "/" + Join(cs[..|cs| - 1])
  {
    var n := |cs| - 1;
    if n == 0 {
      DirOfSingle(cs[0]);
      assert cs[..n] == [];
    } else {
      JoinLast(cs);
      DirOfNested(cs[..n], cs[n]);
    }
  }

  lemma ParentTextIsPrefix(cs: seq<string>)
    requires cs != []
    ensures "/" + Join(cs[..|cs| - 1]) <= "/" + Join(cs)
  {
    if |cs| > 1 {
      JoinLast(cs);
      hide Join;
      assert Join(cs) == Join(cs[..|cs| - 1]) + "/" + cs[|cs| - 1];
    }
  }

  lemma TrailingSlashCleaned(cs: seq<string>)
    requires ValidNames(cs) && cs != []
    ensures Clean("/" + Join(cs) + "/") == "/" + Join(cs)
  {
    var s := "/" + Join(cs) + "/";
    var t := Join(cs) + "/";
    assert s[1..] == t;
    SplitAtSlash(Join(cs), "");
    assert t == Join(cs) + "/" + "";
    SplitJoin(cs);
    assert Split("") == [""];
    assert Split(s) == [""] + (cs + [""]);
    assert ([""] + (cs + [""]))[1..] == cs + [""];
    ReduceAppend([], cs, [""], true);
    ReduceValid([], cs, true);
    assert Reduce([], cs + [""], true) == Reduce(cs, [""], true) == cs;
  }
}
