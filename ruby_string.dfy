/** The few pieces of Ruby's String semantics the Apple formatter relies on:
    `include?`, `gsub` and `sub` with a literal pattern, `split` on one
    character, and `join`. */
module RubyString {

  datatype Option<+T> = None | Some(value: T)

  /** `sub` occurs in `s` starting at index `i`. */
  predicate OccursAt(s: string, sub: string, i: int) {
    0 <= i && i + |sub| <= |s| && s[i..i + |sub|] == sub
  }

  /** Ruby's `s.include?(sub)`. */
  predicate Contains(s: string, sub: string) {
    exists i :: 0 <= i <= |s| - |sub| && OccursAt(s, sub, i)
  }

  /** The two characters `a`, `b` stand next to each other somewhere in `s`. */
  predicate HasPair(s: string, a: char, b: char) {
    exists i :: 0 <= i < |s| - 1 && s[i] == a && s[i + 1] == b
  }

  /** Ruby's `s.gsub(pat, rep)` for a literal string pattern: every
      occurrence, scanned left to right without overlap, is replaced. */
  function Replace(s: string, pat: string, rep: string): string
    requires |pat| > 0
    decreases |s|
  {
    if |s| < |pat| then s
    else if s[..|pat|] == pat then rep + Replace(s[|pat|..], pat, rep)
    else [s[0]] + Replace(s[1..], pat, rep)
  }

  /** Ruby's `s.sub(pat, rep)` for a literal pattern: only the leftmost
      occurrence is replaced. */
  function Sub(s: string, pat: string, rep: string): string
    requires |pat| > 0
    decreases |s|
  {
    if |s| < |pat| then s
    else if s[..|pat|] == pat then rep + s[|pat|..]
    else [s[0]] + Sub(s[1..], pat, rep)
  }

  /** All the fields of `s` between occurrences of `sep`, empty ones included. */
  function Fields(s: string, sep: char): (r: seq<string>)
    ensures |r| >= 1
    decreases |s|
  {
    if s == [] then [""]
    else
      var rest := Fields(s[1..], sep);
      if s[0] == sep then [""] + rest
      else [[s[0]] + rest[0]] + rest[1..]
  }

  /** `fs.join(sep)`. */
  function Join(fs: seq<string>, sep: string): string {
    if fs == [] then ""
    else if |fs| == 1 then fs[0]
    else fs[0] + sep + Join(fs[1..], sep)
  }

  function DropTrailingEmpty(fs: seq<string>): (r: seq<string>)
    ensures |r| <= |fs| && r == fs[..|r|]
    ensures r == [] || r[|r| - 1] != ""
    ensures forall k :: |r| <= k < |fs| ==> fs[k] == ""
  {
    if fs == [] || fs[|fs| - 1] != "" then fs
    else DropTrailingEmpty(fs[..|fs| - 1])
  }

  /** No field holds the separator. */
  lemma {:induction false} FieldsExcludeSep(s: string, sep: char)
    ensures forall k :: 0 <= k < |Fields(s, sep)| ==> sep !in Fields(s, sep)[k]
    decreases |s|
  {
    if s != [] {
      FieldsExcludeSep(s[1..], sep);
    }
  }

  /** Ruby's `s.split(sep)` for a one-character separator: the fields,
      with trailing empty fields removed. */
  function Split(s: string, sep: char): (r: seq<string>)
    ensures r == [] || r[|r| - 1] != ""
  {
    DropTrailingEmpty(Fields(s, sep))
  }

  /** No part of a split holds the separator. */
  lemma SplitExcludesSep(s: string, sep: char)
    ensures forall k :: 0 <= k < |Split(s, sep)| ==> sep !in Split(s, sep)[k]
  {
    FieldsExcludeSep(s, sep);
  }

  // ---------------------------------------------------------------------
  // Lemmas

  /** Splitting on `sep` and joining with `sep` gives back the string. */
  lemma {:induction false} FieldsJoin(s: string, sep: char)
    ensures Join(Fields(s, sep), [sep]) == s
    decreases |s|
  {
    if s != [] {
      var rest := Fields(s[1..], sep);
      FieldsJoin(s[1..], sep);
      if s[0] == sep {
        assert Fields(s, sep) == [""] + rest;
        assert ([""] + rest)[1..] == rest;
      } else {
        if |rest| == 1 {
          assert Fields(s, sep) == [[s[0]] + rest[0]];
        } else {
          var fs := [[s[0]] + rest[0]] + rest[1..];
          assert fs[1..] == rest[1..];
          assert Join(rest, [sep]) == rest[0] + [sep] + Join(rest[1..], [sep]);
        }
      }
    }
  }

  lemma {:induction false} FieldsNoSep(s: string, sep: char)
    requires sep !in s
    ensures Fields(s, sep) == [s]
    decreases |s|
  {
    if s != [] {
      FieldsNoSep(s[1..], sep);
      assert [s[0]] + s[1..] == s;
    }
  }

  /** Fields of `u + [sep] + v` are the fields of `u` followed by those of `v`. */
  lemma {:induction false} FieldsConcat(u: string, v: string, sep: char)
    ensures Fields(u + [sep] + v, sep) == Fields(u, sep) + Fields(v, sep)
    decreases |u|
  {
    if u == [] {
      assert u + [sep] + v == [sep] + v;
      FieldsCons(sep, v, sep);
    } else {
      var c, t := u[0], u[1..];
      FieldsConcat(t, v, sep);
      assert u == [c] + t;
      assert u + [sep] + v == [c] + (t + [sep] + v);
      FieldsConcatStep(c, t, t + [sep] + v, Fields(v, sep), sep);
    }
  }

  /** The step of `FieldsConcat` for one more character in front: `w`
      stands for `t + [sep] + v` and `rv` for the fields of `v`. */
  lemma FieldsConcatStep(c: char, t: string, w: string, rv: seq<string>, sep: char)
    requires Fields(w, sep) == Fields(t, sep) + rv
    ensures Fields([c] + w, sep) == Fields([c] + t, sep) + rv
  {
    FieldsCons(c, t, sep);
    FieldsCons(c, w, sep);
    if c == sep {
      SeqAssoc([""], Fields(t, sep), rv);
    } else {
      FieldsGlue(c, Fields(t, sep), rv);
    }
  }

  lemma SeqAssoc(a: seq<string>, b: seq<string>, c: seq<string>)
    ensures a + (b + c) == (a + b) + c
  {
  }

  /** One step of `Fields`. */
  lemma FieldsCons(c: char, t: string, sep: char)
    ensures Fields([c] + t, sep) ==
      if c == sep then [""] + Fields(t, sep)
      else [[c] + Fields(t, sep)[0]] + Fields(t, sep)[1..]
  {
    assert ([c] + t)[1..] == t;
  }

  /** Gluing a character onto the first field commutes with appending
      fields. */
  lemma FieldsGlue(c: char, rt: seq<string>, rv: seq<string>)
    requires rt != []
    ensures [[c] + (rt + rv)[0]] + (rt + rv)[1..] == ([[c] + rt[0]] + rt[1..]) + rv
  {
    assert (rt + rv)[0] == rt[0];
    assert (rt + rv)[1..] == rt[1..] + rv;
  }

  lemma DropTrailingEmptyKeeps(fs: seq<string>)
    requires fs != [] && fs[|fs| - 1] != ""
    ensures DropTrailingEmpty(fs) == fs
  {
  }

  lemma {:induction false} ReplaceAbsent(s: string, pat: string, rep: string)
    requires |pat| > 0
    requires !Contains(s, pat)
    ensures Replace(s, pat, rep) == s
    decreases |s|
  {
    if |s| >= |pat| {
      assert !OccursAt(s, pat, 0);
      forall i | OccursAt(s[1..], pat, i) ensures false {
        assert s[1..][i..i + |pat|] == s[i + 1..i + 1 + |pat|];
        assert OccursAt(s, pat, i + 1);
      }
      ReplaceAbsent(s[1..], pat, rep);
    }
  }

  /** The first character of `gsub`'s result. */
  lemma ReplaceHead(s: string, pat: string, rep: string)
    requires |pat| > 0 && |rep| > 0 && |s| > 0
    ensures |Replace(s, pat, rep)| > 0
    ensures Replace(s, pat, rep)[0] ==
            if |s| >= |pat| && s[..|pat|] == pat then rep[0] else s[0]
  {
  }

  lemma NoPairConcat(u: string, v: string, a: char, b: char)
    requires !HasPair(u, a, b) && !HasPair(v, a, b)
    requires u == [] || v == [] || !(u[|u| - 1] == a && v[0] == b)
    ensures !HasPair(u + v, a, b)
  {
    var w := u + v;
    forall i | 0 <= i < |w| - 1 && w[i] == a ensures w[i + 1] != b {
      if i + 1 < |u| {
        assert u[i] == a;
      } else if i >= |u| {
        assert v[i - |u|] == a;
      }
    }
  }

  /** Replacing every `ab` by a text that cannot recreate one leaves no `ab`. */
  lemma {:induction false} ReplaceRemovesPair(s: string, a: char, b: char, rep: string)
    requires |rep| > 0 && rep[0] != b && rep[|rep| - 1] != a && !HasPair(rep, a, b)
    ensures !HasPair(Replace(s, [a, b], rep), a, b)
    decreases |s|
  {
    if |s| < 2 {
    } else if s[..2] == [a, b] {
      ReplaceRemovesPair(s[2..], a, b, rep);
      NoPairConcat(rep, Replace(s[2..], [a, b], rep), a, b);
    } else {
      var t := Replace(s[1..], [a, b], rep);
      ReplaceRemovesPair(s[1..], a, b, rep);
      if |s[1..]| > 0 {
        ReplaceHead(s[1..], [a, b], rep);
        assert s[..2] == [s[0], s[1]];
      }
      NoPairConcat([s[0]], t, a, b);
    }
  }

  /** Replacing a character `c` (distinct from `a` and `b`) by a suitable text
      does not create an `ab` pair. */
  lemma {:induction false} ReplaceCharKeepsNoPair(s: string, c: char, rep: string, a: char, b: char)
    requires c != a && c != b
    requires |rep| > 0 && rep[0] != b && rep[|rep| - 1] != a && !HasPair(rep, a, b)
    requires !HasPair(s, a, b)
    ensures !HasPair(Replace(s, [c], rep), a, b)
    decreases |s|
  {
    if |s| > 0 {
      var t := Replace(s[1..], [c], rep);
      assert !HasPair(s[1..], a, b) by {
        forall i | 0 <= i < |s[1..]| - 1 && s[1..][i] == a ensures s[1..][i + 1] != b {
          assert s[i + 1] == a;
        }
      }
      ReplaceCharKeepsNoPair(s[1..], c, rep, a, b);
      if s[..1] == [c] {
        NoPairConcat(rep, t, a, b);
      } else {
        if |s[1..]| > 0 {
          ReplaceHead(s[1..], [c], rep);
          assert s[1..][..1] == [s[1]];
        }
        NoPairConcat([s[0]], t, a, b);
      }
    }
  }

  /** Replacing every `c` by a text without `c` leaves no `c`. */
  lemma {:induction false} ReplaceRemovesChar(s: string, c: char, rep: string)
    requires c !in rep
    ensures c !in Replace(s, [c], rep)
    decreases |s|
  {
    if |s| > 0 {
      ReplaceRemovesChar(s[1..], c, rep);
      if s[..1] != [c] {
        assert s[0] != c;
      }
    }
  }

  /** `sub` with a present pattern splices the replacement in at an
      occurrence of the pattern. */
  lemma {:induction false} SubSplices(s: string, pat: string, rep: string) returns (i: nat)
    requires |pat| > 0 && Contains(s, pat)
    ensures i + |pat| <= |s| && Sub(s, pat, rep) == s[..i] + rep + s[i + |pat|..]
    ensures OccursAt(s, pat, i) && forall j :: 0 <= j < i ==> !OccursAt(s, pat, j)
    decreases |s|
  {
    var i0 :| 0 <= i0 <= |s| - |pat| && OccursAt(s, pat, i0);
    if s[..|pat|] == pat {
      i := 0;
      assert s[..0] + rep + s[|pat|..] == rep + s[|pat|..];
      assert s[0..|pat|] == s[..|pat|];
    } else {
      ContainsPastHead(s, pat);
      var j := SubSplices(s[1..], pat, rep);
      i := j + 1;
      SpliceCons(s, rep, j, |pat|);
      OccursInTail(s, pat, i);
      forall k | 0 <= k < i ensures !OccursAt(s, pat, k) {
        if k == 0 {
          assert s[0..|pat|] == s[..|pat|];
        } else {
          OccursInTail(s, pat, k);
        }
      }
    }
  }

  /** An occurrence past the start of `s` is an occurrence in its tail. */
  lemma OccursInTail(s: string, pat: string, k: nat)
    requires 0 < k && s != []
    ensures OccursAt(s, pat, k) <==> OccursAt(s[1..], pat, k - 1)
  {
    if k + |pat| <= |s| {
      assert s[k..k + |pat|] == s[1..][k - 1..k - 1 + |pat|];
    }
  }

  /** A pattern that occurs in `s` but not at its start occurs in its tail. */
  lemma ContainsPastHead(s: string, pat: string)
    requires Contains(s, pat) && |pat| <= |s| && s[..|pat|] != pat
    ensures Contains(s[1..], pat)
  {
    var i0 :| 0 <= i0 <= |s| - |pat| && OccursAt(s, pat, i0);
    assert i0 != 0 by {
      assert s[0..|pat|] == s[..|pat|];
    }
    assert s[1..][i0 - 1..i0 - 1 + |pat|] == s[i0..i0 + |pat|];
    assert OccursAt(s[1..], pat, i0 - 1);
  }

  /** A splice in the tail of `s` is a splice in `s`. */
  lemma SpliceCons(s: string, rep: string, j: nat, n: nat)
    requires 1 + j + n <= |s|
    ensures [s[0]] + (s[1..][..j] + rep + s[1..][j + n..]) == s[..j + 1] + rep + s[j + 1 + n..]
  {
    assert s[..j + 1] == [s[0]] + s[1..][..j];
    assert s[j + 1 + n..] == s[1..][j + n..];
  }

  /** A two-character `include?` is the same as `HasPair`. */
  lemma ContainsPairIff(s: string, a: char, b: char)
    ensures Contains(s, [a, b]) <==> HasPair(s, a, b)
  {
    if HasPair(s, a, b) {
      var i :| 0 <= i < |s| - 1 && s[i] == a && s[i + 1] == b;
      assert s[i..i + 2] == [a, b];
      assert OccursAt(s, [a, b], i);
    }
    if Contains(s, [a, b]) {
      var i :| 0 <= i <= |s| - 2 && OccursAt(s, [a, b], i);
      assert s[i..i + 2] == [a, b];
      assert s[i] == a && s[i + 1] == b;
    }
  }

  /** What `s` does not contain, its tail does not contain either. */
  lemma AbsentFromTail(s: string, x: string)
    requires |s| > 0 && !Contains(s, x)
    ensures !Contains(s[1..], x)
  {
    forall i | 0 <= i <= |s[1..]| - |x| ensures !OccursAt(s[1..], x, i) {
      OccursInTail(s, x, i + 1);
    }
  }

  /** What occurs in the tail of `s` occurs in `s`. */
  lemma ContainsInTail(s: string, x: string)
    requires |s| > 0 && Contains(s[1..], x)
    ensures Contains(s, x)
  {
    var i :| 0 <= i <= |s[1..]| - |x| && OccursAt(s[1..], x, i);
    assert s[1..][i..i + |x|] == s[i + 1..i + 1 + |x|];
    assert OccursAt(s, x, i + 1);
  }

  /** `gsub` only brings in characters of the input or of the replacement. */
  lemma {:induction false} ReplaceChars(s: string, pat: string, rep: string, x: char)
    requires |pat| > 0 && x !in s && x !in rep
    ensures x !in Replace(s, pat, rep)
    decreases |s|
  {
    if |s| >= |pat| {
      if s[..|pat|] == pat {
        assert forall k :: |pat| <= k < |s| ==> s[k] == s[|pat|..][k - |pat|];
        ReplaceChars(s[|pat|..], pat, rep, x);
      } else {
        assert forall k :: 1 <= k < |s| ==> s[k] == s[1..][k - 1];
        ReplaceChars(s[1..], pat, rep, x);
      }
    }
  }

  lemma ContainsMiddle(u: string, w: string, v: string)
    ensures Contains(u + w + v, w)
  {
    assert (u + w + v)[|u|..|u| + |w|] == w;
    assert OccursAt(u + w + v, w, |u|);
  }

  /** What occurs in `s` occurs in anything `s` is part of. */
  lemma ContainsWithin(u: string, s: string, v: string, x: string)
    requires Contains(s, x)
    ensures Contains(u + s + v, x)
  {
    var i :| 0 <= i <= |s| - |x| && OccursAt(s, x, i);
    assert (u + s + v)[|u| + i..|u| + i + |x|] == s[i..i + |x|];
    assert OccursAt(u + s + v, x, |u| + i);
  }

  /** What occurs in `s` occurs in `u + s`. */
  lemma ContainsAfter(u: string, s: string, x: string)
    requires Contains(s, x)
    ensures Contains(u + s, x)
  {
    var i :| 0 <= i <= |s| - |x| && OccursAt(s, x, i);
    assert (u + s)[|u| + i..|u| + i + |x|] == s[i..i + |x|];
    assert OccursAt(u + s, x, |u| + i);
  }

  /** A string occurs at the end of anything it ends. */
  lemma ContainsEnd(u: string, w: string)
    ensures Contains(u + w, w)
  {
    assert (u + w)[|u|..|u| + |w|] == w;
    assert OccursAt(u + w, w, |u|);
  }

  /** A string occurs at the start of anything it starts. */
  lemma ContainsStart(w: string, v: string)
    ensures Contains(w + v, w)
  {
    assert (w + v)[..|w|] == w;
    assert OccursAt(w + v, w, 0);
  }

  /** `include?` is transitive. */
  lemma ContainsTransitive(a: string, b: string, c: string)
    requires Contains(a, b) && Contains(b, c)
    ensures Contains(a, c)
  {
    var i :| 0 <= i <= |a| - |b| && OccursAt(a, b, i);
    assert a == a[..i] + b + a[i + |b|..];
    ContainsWithin(a[..i], b, a[i + |b|..], c);
  }

  /** Every joined part occurs in the joined string. */
  lemma {:induction false} JoinContains(fs: seq<string>, sep: string, x: string)
    requires x in fs
    ensures Contains(Join(fs, sep), x)
  {
    if |fs| == 1 {
      ContainsMiddle("", x, "");
      assert "" + x + "" == x;
    } else if fs[0] == x {
      ContainsMiddle("", x, sep + Join(fs[1..], sep));
      assert "" + x + (sep + Join(fs[1..], sep)) == Join(fs, sep);
    } else {
      JoinContains(fs[1..], sep, x);
      ContainsWithin(fs[0] + sep, Join(fs[1..], sep), "", x);
      assert fs[0] + sep + Join(fs[1..], sep) + "" == Join(fs, sep);
    }
  }
}
