/**
 * The few Ruby `String` operations the scraper's row transform is built from,
 * on strings as sequences of characters:
 *   - `nil.to_s` and `.to_s.empty?`,
 *   - `split('/')` followed by `.last`,
 *   - the range slice `s[0..last]`,
 *   - `downcase` (ASCII letters only) and `tr('^a-z', '')`.
 */
module RubyString {
  import opened Wrappers

  const Slash: char := '/'

  /** Ruby's `to_s` on a string-or-nil: `nil.to_s` is the empty string. */
  function ToS(o: Option<string>): (s: string)
    ensures o.None? ==> s == ""
    ensures o.Some? ==> s == o.value
  {
    if o.Some? then o.value else ""
  }

  /** Ruby's `o.to_s.empty?`: true for nil and for the empty string. */
  predicate IsBlank(o: Option<string>): (b: bool)
    ensures b <==> (o.None? || o.value == "")
  {
    ToS(o) == ""
  }

  // ---------------------------------------------------------------------------
  // Dropping a trailing run of one element
  // ---------------------------------------------------------------------------

  /** The longest prefix of `xs` that does not end with `x`: `xs` with every
      trailing `x` removed. */
  function DropTrailing<T(==)>(xs: seq<T>, x: T): (r: seq<T>)
    ensures r <= xs
    ensures r == [] || r[|r| - 1] != x
    ensures forall i :: |r| <= i < |xs| ==> xs[i] == x
    decreases |xs|
  {
    if xs == [] || xs[|xs| - 1] != x then xs else DropTrailing(xs[..|xs| - 1], x)
  }

  // ---------------------------------------------------------------------------
  // split('/')
  // ---------------------------------------------------------------------------

  /** Every field of `s` between slashes, empty fields included: "a//b/" has the
      fields "a", "", "b", "". Built from the right, one character at a time. */
  function Fields(s: string): (fs: seq<string>)
    ensures |fs| >= 1
    decreases |s|
  {
    if s == [] then [[]]
    else
      var fs := Fields(s[..|s| - 1]);
      var c := s[|s| - 1];
      if c == Slash then fs + [[]]
      else fs[..|fs| - 1] + [fs[|fs| - 1] + [c]]
  }

  /** The fields put back together with a slash between neighbours. */
  function Join(fs: seq<string>): string
    decreases |fs|
  {
    if |fs| == 0 then []
    else if |fs| == 1 then fs[0]
    else Join(fs[..|fs| - 1]) + [Slash] + fs[|fs| - 1]
  }

  /** The field after the last slash of `s` (all of `s` when it has none). */
  function LastField(s: string): string {
    var fs := Fields(s);
    fs[|fs| - 1]
  }

  /** Ruby's `s.split('/')`: the fields, with the trailing empty ones removed
      (leading and inner empty fields stay). */
  function Split(s: string): (parts: seq<string>)
    ensures parts <= Fields(s)
    ensures forall i :: |parts| <= i < |Fields(s)| ==> Fields(s)[i] == []
    ensures parts == [] || parts[|parts| - 1] != []
    ensures forall i :: 0 <= i < |parts| ==> Slash !in parts[i]
  {
    FieldsJoin(s);
    DropTrailing(Fields(s), [])
  }

  /** Ruby's `s.split('/').last`: nil when the split is empty. */
  function LastSegment(s: string): (r: Option<string>)
    ensures r.Some? ==> r.value != [] && Slash !in r.value
  {
    var parts := Split(s);
    if parts == [] then None else Some(parts[|parts| - 1])
  }

  lemma FieldsSlash(s: string)
    ensures Fields(s + [Slash]) == Fields(s) + [[]]
  {
  }

  lemma FieldsChar(s: string, c: char)
    requires c != Slash
    ensures Fields(s + [c]) == Fields(s)[..|Fields(s)| - 1] + [LastField(s) + [c]]
    ensures LastField(s + [c]) == LastField(s) + [c]
  {
  }

  lemma JoinExtendLast(fs: seq<string>, c: char)
    requires |fs| >= 1
    ensures Join(fs[..|fs| - 1] + [fs[|fs| - 1] + [c]]) == Join(fs) + [c]
  {
  }

  /** Splitting loses nothing: joining the fields with slashes gives `s` back,
      and no field holds a slash. */
  lemma {:induction false} FieldsJoin(s: string)
    ensures Join(Fields(s)) == s
    ensures forall i :: 0 <= i < |Fields(s)| ==> Slash !in Fields(s)[i]
    decreases |s|
  {
    if s != [] {
      var p, c := s[..|s| - 1], s[|s| - 1];
      assert s == p + [c];
      FieldsJoin(p);
      var fs := Fields(p);
      if c == Slash {
        FieldsSlash(p);
        assert (fs + [[]])[..|fs|] == fs;
      } else {
        FieldsChar(p, c);
        JoinExtendLast(fs, c);
      }
    }
  }

  /** The fields are the only way to cut `s` into slash-free pieces that join
      back to `s`, so `Fields` is the split and nothing else. */
  lemma {:induction false} FieldsUnique(s: string, fs: seq<string>)
    requires |fs| >= 1 && Join(fs) == s
    requires forall i :: 0 <= i < |fs| ==> Slash !in fs[i]
    ensures Fields(s) == fs
    decreases |s|, |fs|
  {
    var n := |fs|;
    var gs, x := fs[..n - 1], fs[n - 1];
    assert fs == gs + [x];
    if x == [] {
      if n == 1 {
        assert Fields(s) == [[]];
      } else {
        assert s == Join(gs) + [Slash];
        FieldsUnique(Join(gs), gs);
        FieldsSlash(Join(gs));
      }
    } else {
      var x', c := x[..|x| - 1], x[|x| - 1];
      assert x == x' + [c];
      assert c in x;
      var fs' := gs + [x'];
      SlashFreePrefix(x, |x| - 1);
      assert forall i :: 0 <= i < |fs'| ==> Slash !in fs'[i];
      assert fs'[..n - 1] == gs;
      JoinExtendLast(fs', c);
      FieldsUnique(Join(fs'), fs');
      FieldsChar(Join(fs'), c);
    }
  }

  lemma SlashFreePrefix(x: string, k: nat)
    requires k <= |x| && Slash !in x
    ensures Slash !in x[..k]
  {
  }

  /** The last field is a slash-free suffix of `s` that starts at the
      beginning of `s` or right after a slash. */
  lemma {:induction false} LastFieldShape(s: string)
    ensures |LastField(s)| <= |s|
    ensures s[|s| - |LastField(s)|..] == LastField(s)
    ensures Slash !in LastField(s)
    ensures |LastField(s)| == |s| || s[|s| - |LastField(s)| - 1] == Slash
    decreases |s|
  {
    if s != [] {
      var p, c := s[..|s| - 1], s[|s| - 1];
      assert s == p + [c];
      if c == Slash {
        FieldsSlash(p);
      } else {
        FieldsChar(p, c);
        LastFieldShape(p);
      }
    }
  }

  /** Appending slash-free text extends the last field. */
  lemma {:induction false} LastFieldAppend(p: string, t: string)
    requires Slash !in t
    ensures LastField(p + t) == LastField(p) + t
    decreases |t|
  {
    if t != [] {
      var t', c := t[..|t| - 1], t[|t| - 1];
      assert t == t' + [c];
      assert c in t;
      assert p + t == (p + t') + [c];
      LastFieldAppend(p, t');
      FieldsChar(p + t', c);
    } else {
      assert p + t == p;
    }
  }

  lemma LastSegmentSlash(s: string)
    ensures LastSegment(s + [Slash]) == LastSegment(s)
  {
  }

  lemma LastSegmentChar(s: string, c: char)
    requires c != Slash
    ensures LastSegment(s + [c]) == Some(LastField(s) + [c])
  {
  }

  /** Trailing slashes never change the last segment. */
  lemma {:induction false} LastSegmentStrip(s: string)
    ensures LastSegment(s) == LastSegment(DropTrailing(s, Slash))
    decreases |s|
  {
    if s != [] && s[|s| - 1] == Slash {
      var p := s[..|s| - 1];
      assert s == p + [Slash];
      LastSegmentSlash(p);
      LastSegmentStrip(p);
    }
  }

  /** `split('/').last` is nil exactly when the string is empty or made only of slashes. */
  lemma LastSegmentNone(s: string)
    ensures LastSegment(s).None? <==> forall i :: 0 <= i < |s| ==> s[i] == Slash
  {
    LastSegmentStrip(s);
    var u := DropTrailing(s, Slash);
    if u == [] {
      assert Fields(u) == [[]];
    } else {
      var p, c := u[..|u| - 1], u[|u| - 1];
      assert u == p + [c];
      LastSegmentChar(p, c);
      assert s[|u| - 1] == c;
    }
  }

  /** When there is a last segment, it is non-empty, holds no slash, starts at
      the beginning of `s` or after a slash, and only slashes follow it. */
  lemma LastSegmentShape(s: string) returns (k: nat)
    requires LastSegment(s).Some?
    ensures var t := LastSegment(s).value;
      && t != []
      && Slash !in t
      && k + |t| <= |s|
      && s[k..k + |t|] == t
      && (k == 0 || s[k - 1] == Slash)
      && forall i :: k + |t| <= i < |s| ==> s[i] == Slash
  {
    LastSegmentStrip(s);
    var u := DropTrailing(s, Slash);
    assert LastSegment([]) == None by {
      assert Fields([]) == [[]];
    }
    var p, c := u[..|u| - 1], u[|u| - 1];
    assert u == p + [c];
    LastSegmentChar(p, c);
    FieldsChar(p, c);
    LastFieldShape(u);
    var t := LastField(u);
    k := |u| - |t|;
    assert s[k..k + |t|] == u[k..];
  }

  /** The converse of `LastSegmentShape`: a non-empty slash-free segment at the
      start or after a slash, followed only by slashes, is the last segment. */
  lemma LastSegmentOf(p: string, t: string, q: string)
    requires p == [] || p[|p| - 1] == Slash
    requires t != [] && Slash !in t
    requires forall i :: 0 <= i < |q| ==> q[i] == Slash
    ensures LastSegment(p + t + q) == Some(t)
  {
    var t', c := t[..|t| - 1], t[|t| - 1];
    assert t == t' + [c];
    assert c in t;
    assert p + t == (p + t') + [c];
    if p == [] {
      assert Fields(p) == [[]];
    } else {
      assert p == p[..|p| - 1] + [Slash];
      FieldsSlash(p[..|p| - 1]);
    }
    assert LastField(p) == [];
    LastFieldAppend(p, t');
    assert LastField(p + t') == t';
    LastSegmentChar(p + t', c);
    assert LastSegment((p + t') + [c]) == Some(t' + [c]);
    LastSegmentTrailingSlashes(p + t, q);
  }

  lemma {:induction false} LastSegmentTrailingSlashes(s: string, q: string)
    requires forall i :: 0 <= i < |q| ==> q[i] == Slash
    ensures LastSegment(s + q) == LastSegment(s)
    decreases |q|
  {
    if q != [] {
      var q' := q[..|q| - 1];
      assert q == q' + [Slash];
      assert s + q == (s + q') + [Slash];
      LastSegmentSlash(s + q');
      LastSegmentTrailingSlashes(s, q');
    } else {
      assert s + q == s;
    }
  }

  // ---------------------------------------------------------------------------
  // s[0..last]
  // ---------------------------------------------------------------------------

  /** Ruby's `s[0..last]`: the first `last + 1` characters, or all of `s` when
      it is shorter (the empty string for the empty string). */
  function SliceTo(s: string, last: nat): (r: string)
    ensures r <= s
    ensures |r| == if |s| <= last then |s| else last + 1
  {
    if |s| <= last then s else s[..last + 1]
  }

  // ---------------------------------------------------------------------------
  // downcase and tr('^a-z', '')
  // ---------------------------------------------------------------------------

  predicate IsUpper(c: char) { 'A' <= c <= 'Z' }

  predicate IsLower(c: char) { 'a' <= c <= 'z' }

  function LowerChar(c: char): char {
    if IsUpper(c) then (c as int + 32) as char else c
  }

  /** Ruby's `downcase`, on ASCII letters only. */
  function Downcase(s: string): (r: string)
    ensures |r| == |s|
    ensures forall i :: 0 <= i < |s| ==> r[i] == LowerChar(s[i])
    decreases |s|
  {
    if s == [] then [] else [LowerChar(s[0])] + Downcase(s[1..])
  }

  /** Ruby's `tr('^a-z', '')`: with an empty replacement every character not in
      `a`..`z` is deleted, and the rest keep their order. */
  function KeepLower(s: string): (r: string)
    ensures forall i :: 0 <= i < |r| ==> IsLower(r[i])
    ensures |r| <= |s|
    decreases |s|
  {
    if s == [] then []
    else (if IsLower(s[0]) then [s[0]] else []) + KeepLower(s[1..])
  }

  /** Every `a`..`z` character is kept as often as it occurs; the others are
      gone (`KeepLower` says its result holds only `a`..`z`). */
  lemma {:induction false} KeepLowerCounts(s: string, c: char)
    requires IsLower(c)
    ensures multiset(KeepLower(s))[c] == multiset(s)[c]
    decreases |s|
  {
    if s != [] {
      assert s == [s[0]] + s[1..];
      KeepLowerCounts(s[1..], c);
    }
  }

  /** `downcase` distributes over concatenation. */
  lemma {:induction false} DowncaseAppend(a: string, b: string)
    ensures Downcase(a + b) == Downcase(a) + Downcase(b)
    decreases |a|
  {
    if a != [] {
      assert (a + b)[1..] == a[1..] + b;
      DowncaseAppend(a[1..], b);
    } else {
      assert a + b == b;
    }
  }

  /** A string without upper-case ASCII letters is its own `downcase`. */
  lemma {:induction false} DowncaseNoUpper(s: string)
    requires forall i :: 0 <= i < |s| ==> !IsUpper(s[i])
    ensures Downcase(s) == s
    decreases |s|
  {
    if s != [] {
      DowncaseNoUpper(s[1..]);
    }
  }

  /** `tr('^a-z', '')` distributes over concatenation. */
  lemma {:induction false} KeepLowerAppend(a: string, b: string)
    ensures KeepLower(a + b) == KeepLower(a) + KeepLower(b)
    decreases |a|
  {
    if a != [] {
      var head := if IsLower(a[0]) then [a[0]] else [];
      assert (a + b)[0] == a[0] && (a + b)[1..] == a[1..] + b;
      assert KeepLower(a + b) == head + KeepLower(a[1..] + b);
      KeepLowerAppend(a[1..], b);
    } else {
      assert a + b == b;
    }
  }

  /** `tr('^a-z', '')` leaves a string of `a`..`z` unchanged. */
  lemma {:induction false} KeepLowerAllLower(s: string)
    requires forall i :: 0 <= i < |s| ==> IsLower(s[i])
    ensures KeepLower(s) == s
    decreases |s|
  {
    if s != [] {
      KeepLowerAllLower(s[1..]);
    }
  }
}
