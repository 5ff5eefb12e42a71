/** How a copy of a file is named. */
module CopyNames {
  import opened Collections
  import opened PathText
  import opened FileTree

  /** filepath.Ext of a file name: the text from the last dot on. */
  function Ext(name: string): string {
    if name == "" then ""
    else if name[|name| - 1] == '.' then "."
    else
      var e := Ext(name[..|name| - 1]);
      if e == "" then "" else e + [name[|name| - 1]]
  }

  lemma {:induction false} ExtIsSuffix(name: string)
    ensures |Ext(name)| <= |name| && name[|name| - |Ext(name)|..] == Ext(name)
    ensures Ext(name) == "" ==> '.' !in name
  {
    if name != "" {
      ExtIsSuffix(name[..|name| - 1]);
      assert name == name[..|name| - 1] + [name[|name| - 1]];
    }
  }

  /** The name without its extension, and the extension; ".tar" before it counts as part of it. */
  function Stem(name: string): (string, string) {
    var ext := Ext(name);
    var stem := TrimSuffix(name, ext);
    if |stem| >= 4 && stem[|stem| - 4..] == ".tar" then (TrimSuffix(stem, ".tar"), ".tar" + ext)
    else (stem, ext)
  }

  /** Stem and extension make up the name again. */
  lemma StemWhole(name: string)
    ensures Stem(name).0 + Stem(name).1 == name
  {
    ExtIsSuffix(name);
    var ext := Ext(name);
    SuffixTrimmed(name, ext);
    var stem := TrimSuffix(name, ext);
    if |stem| >= 4 && stem[|stem| - 4..] == ".tar" {
      SuffixTrimmed(stem, ".tar");
      assert TrimSuffix(stem, ".tar") + (".tar" + ext) == TrimSuffix(stem, ".tar") + ".tar" + ext;
    }
  }

  lemma SuffixTrimmed(s: string, suffix: string)
    requires |suffix| <= |s| && s[|s| - |suffix|..] == suffix
    ensures TrimSuffix(s, suffix) + suffix == s
  {
  }

  function Itoa(n: nat): (s: string)
    ensures s != "" && forall c :: c in s ==> '0' <= c <= '9'
  {
    var d := ['0', '1', '2', '3', '4', '5', '6', '7', '8', '9'][n % 10];
    if n < 10 then [d] else Itoa(n / 10) + [d]
  }

  function CopySuffix(i: nat): string {
    if i == 0 then " copy" else " copy " + Itoa(i)
  }

  // ------------------------------------------------------------------ what the names look like

  lemma {:induction false} ExtOf(s: string, e: string)
    requires '.' !in e
    ensures Ext(s + "." + e) == "." + e
  {
    var name := s + "." + e;
    if e == "" {
      assert name[|name| - 1] == '.';
    } else {
      var k := |e| - 1;
      assert e[k] in e && forall c :: c in e[..k] ==> c in e;
      assert name[|name| - 1] == e[k] && name[..|name| - 1] == s + "." + e[..k];
      ExtOf(s, e[..k]);
      assert "." + e[..k] + [e[k]] == "." + e;
    }
  }

  lemma {:induction false} ExtOfPlain(name: string)
    requires '.' !in name
    ensures Ext(name) == ""
  {
    if name != "" {
      var k := |name| - 1;
      assert name[k] in name && forall c :: c in name[..k] ==> c in name;
      ExtOfPlain(name[..k]);
    }
  }

  predicate EndsInTar(s: string) {
    |s| >= 4 && s[|s| - 4..] == ".tar"
  }

  /** The extension is what follows the last dot, with ".tar" before it; a name without a dot has none. */
  lemma StemOf(s: string, e: string)
    requires '.' !in e
    ensures !EndsInTar(s) ==> Stem(s + "." + e) == (s, "." + e)
    ensures Stem(s + ".tar." + e) == (s, ".tar." + e)
    ensures Stem(e) == (e, "")
  {
    if !EndsInTar(s) {
      StemOfSuffix(s, e);
    }
    StemOfTar(s, e);
    StemOfPlain(e);
  }

  lemma StemOfSuffix(s: string, e: string)
    requires '.' !in e && !EndsInTar(s)
    ensures Stem(s + "." + e) == (s, "." + e)
  {
    ExtOf(s, e);
    TrimmedSuffix(s, "." + e);
    assert s + "." + e == s + ("." + e);
  }

  lemma StemOfTar(s: string, e: string)
    requires '.' !in e
    ensures Stem(s + ".tar." + e) == (s, ".tar." + e)
  {
    var t := s + ".tar";
    assert s + ".tar." + e == t + "." + e == t + ("." + e);
    ExtOf(t, e);
    TrimmedSuffix(t, "." + e);
    TrimmedSuffix(s, ".tar");
    assert ".tar" + ("." + e) == ".tar." + e;
    assert t[|t| - 4..] == ".tar";
  }

  lemma StemOfPlain(name: string)
    requires '.' !in name
    ensures Stem(name) == (name, "")
  {
    ExtOfPlain(name);
    TrimmedSuffix(name, "");
    assert name + "" == name;
    if |name| >= 4 {
      assert name[|name| - 4..][0] == name[|name| - 4] && name[|name| - 4] in name;
    }
  }

  lemma TrimmedSuffix(s: string, suffix: string)
    ensures TrimSuffix(s + suffix, suffix) == s
  {
    assert (s + suffix)[|s|..] == suffix && (s + suffix)[..|s|] == s;
  }

  /** The number a string of digits stands for. */
  function DecimalValue(s: string): int {
    if s == "" then 0 else DecimalValue(s[..|s| - 1]) * 10 + (s[|s| - 1] as int - '0' as int)
  }

  /** Itoa writes the number in decimal, without a leading zero. */
  lemma {:induction false} ItoaIsDecimal(n: nat)
    ensures DecimalValue(Itoa(n)) == n
    ensures n > 0 ==> Itoa(n)[0] != '0'
  {
    var d := ['0', '1', '2', '3', '4', '5', '6', '7', '8', '9'][n % 10];
    assert d as int - '0' as int == n % 10;
    if n >= 10 {
      ItoaIsDecimal(n / 10);
      var s := Itoa(n / 10) + [d];
      assert s[..|s| - 1] == Itoa(n / 10);
    } else {
      assert [d][..0] == "" && DecimalValue([d]) == DecimalValue("") * 10 + n;
    }
  }

  /** The name chosen for a copy when only the directory listing decides: the first of 51 numbered
      candidates that is free, or the one carrying the time stamp. */
  ghost predicate IsCopyName(t: Tree, dir: Path, stem: string, ext: string, stamp: string, name: string) {
    || (exists i :: 0 <= i <= 50
          && name == stem + CopySuffix(i) + ext && dir + [name] !in t
          && forall j :: 0 <= j < i ==> dir + [stem + CopySuffix(j) + ext] in t)
    || (name == stem + ("copy." + stamp) + ext
          && forall j :: 0 <= j <= 50 ==> dir + [stem + CopySuffix(j) + ext] in t)
  }

  /** The free candidate with the smallest number is chosen. */
  lemma LowestIsChosen(t: Tree, dir: Path, stem: string, ext: string, stamp: string, name: string, i: nat)
    requires IsCopyName(t, dir, stem, ext, stamp, name) && i <= 50 && dir + [stem + CopySuffix(i) + ext] !in t
    requires forall j :: 0 <= j < i ==> dir + [stem + CopySuffix(j) + ext] in t
    ensures name == stem + CopySuffix(i) + ext
  {
  }

  /** The numbers after " copy " are decimal, so candidates with different numbers are different. */
  lemma CandidatesDiffer(stem: string, ext: string, i: nat, j: nat)
    requires stem + CopySuffix(i) + ext == stem + CopySuffix(j) + ext
    ensures i == j
  {
    var x, y := CopySuffix(i), CopySuffix(j);
    assert |x| == |y|;
    assert (stem + x + ext)[|stem|..|stem| + |x|] == x && (stem + y + ext)[|stem|..|stem| + |y|] == y;
    if i > 0 && j > 0 {
      assert x[6..] == Itoa(i) && y[6..] == Itoa(j);
      ItoaIsDecimal(i);
      ItoaIsDecimal(j);
    } else {
      assert i > 0 ==> |x| > 5;
      assert j > 0 ==> |y| > 5;
    }
  }

  /** The stat of a candidate fails, for another reason than that it is missing, before any candidate
      is found to be free. */
  ghost predicate StatFails(t: Tree, dir: Path, stem: string, ext: string, lost: set<string>) {
    exists i :: 0 <= i <= 50
      && stem + CopySuffix(i) + ext in lost
      && forall j :: 0 <= j < i ==> dir + [stem + CopySuffix(j) + ext] in t && stem + CopySuffix(j) + ext !in lost
  }

  /** `lost` are the names that cannot be looked up. */
  method FindCopySuffix(t: Tree, dir: Path, stem: string, ext: string, stamp: string, lost: set<string>) returns (name: Option<string>)
    ensures name.None? <==> StatFails(t, dir, stem, ext, lost)
    ensures name.Some? ==> IsCopyName(t, dir, stem, ext, stamp, name.value)
  {
    var suffix := " copy";
    var i := 0;
    while i < 51
      invariant 0 <= i <= 51
      invariant forall j :: 0 <= j < i ==> dir + [stem + CopySuffix(j) + ext] in t && stem + CopySuffix(j) + ext !in lost
      invariant i == 0 ==> suffix == " copy"
      invariant i == 51 ==> suffix == "copy." + stamp
    {
      if i > 0 {
        suffix := " copy " + Itoa(i);
      }
      assert suffix == CopySuffix(i);
      var n := stem + suffix + ext;
      if n in lost {
        return None;
      }
      if dir + [n] !in t {
        return Some(n);
      }
      if i == 50 {
        suffix := "copy." + stamp;
      }
      i := i + 1;
    }
    return Some(stem + suffix + ext);
  }

  lemma CopyNameIsValid(stem: string, suffix: string, ext: string)
    requires '/' !in stem && '/' !in suffix && '/' !in ext && |suffix| >= 3
    ensures ValidName(stem + suffix + ext)
  {
  }

  lemma StemHasNoSlash(name: string)
    requires '/' !in name
    ensures '/' !in Stem(name).0 && '/' !in Stem(name).1
  {
    StemWhole(name);
    var (s, e) := Stem(name);
    assert forall c :: c in s ==> c in s + e;
    assert forall c :: c in e ==> c in s + e;
  }

  /** Whatever is chosen is a name. */
  lemma ChosenNameIsValid(t: Tree, dir: Path, source: string, stamp: string, name: string)
    requires ValidName(source) && '/' !in stamp
    requires IsCopyName(t, dir, Stem(source).0, Stem(source).1, stamp, name)
    ensures ValidName(name)
  {
    var (stem, ext) := Stem(source);
    StemHasNoSlash(source);
    if name == stem + ("copy." + stamp) + ext {
      CopyNameIsValid(stem, "copy." + stamp, ext);
    } else {
      var i :| 0 <= i <= 50 && name == stem + CopySuffix(i) + ext;
      CopyNameIsValid(stem, CopySuffix(i), ext);
    }
  }
}
