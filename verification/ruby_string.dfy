/**
 * The few Ruby String operations the Android helper relies on, over `seq<char>`:
 * `strip`, ASCII `downcase`, `split` with a one-character separator followed by `last`,
 * and `sub!(/^id\//, '')`.
 */
module RubyString {
  import opened Wrappers

  /** The characters Ruby's `strip` removes: NUL, tab, line feed, vertical tab, form feed, carriage return, space. */
  predicate IsSpace(c: char) {
    c == '\0' || c == '\t' || c == '\n' || c == '\U{B}' || c == '\U{C}' || c == '\r' || c == ' '
  }

  /** `lstrip`: the longest suffix of `s` that does not start with whitespace. */
  function LStrip(s: string): (r: string)
    ensures |r| <= |s| && r == s[|s| - |r|..]
    ensures forall i :: 0 <= i < |s| - |r| ==> IsSpace(s[i])
    ensures r == [] || !IsSpace(r[0])
  {
    if |s| > 0 && IsSpace(s[0]) then LStrip(s[1..]) else s
  }

  /** `rstrip`: the longest prefix of `s` that does not end with whitespace. */
  function RStrip(s: string): (r: string)
    ensures |r| <= |s| && r == s[..|r|]
    ensures forall i :: |r| <= i < |s| ==> IsSpace(s[i])
    ensures r == [] || !IsSpace(r[|r| - 1])
  {
    if |s| > 0 && IsSpace(s[|s| - 1]) then RStrip(s[..|s| - 1]) else s
  }

  /** `strip`: leading and trailing whitespace removed. */
  function Strip(s: string): string {
    RStrip(LStrip(s))
  }

  /** ASCII lower-casing of one character. */
  function LowerChar(c: char): char {
    if 'A' <= c <= 'Z' then (c as int + 32) as char else c
  }

  /** `downcase`, restricted to ASCII letters. */
  function Downcase(s: string): (r: string)
    ensures |r| == |s|
    ensures forall i :: 0 <= i < |s| ==> r[i] == LowerChar(s[i])
  {
    if s == [] then [] else [LowerChar(s[0])] + Downcase(s[1..])
  }

  /** `to_s.downcase.strip` on a string; the result is trimmed at both ends. */
  function Normalize(s: string): (r: string)
    ensures r == [] || (!IsSpace(r[0]) && !IsSpace(r[|r| - 1]))
  {
    StripEnds(Downcase(s));
    Strip(Downcase(s))
  }

  lemma DowncaseOfLower(s: string)
    requires forall i :: 0 <= i < |s| ==> LowerChar(s[i]) == s[i]
    ensures Downcase(s) == s
  {
  }

  /** A string that neither starts nor ends with whitespace is its own strip. */
  lemma StripTrimmed(s: string)
    requires s == [] || (!IsSpace(s[0]) && !IsSpace(s[|s| - 1]))
    ensures Strip(s) == s
  {
  }

  /** What `strip` returns neither starts nor ends with whitespace. */
  lemma StripEnds(s: string)
    ensures var t := Strip(s); t == [] || (!IsSpace(t[0]) && !IsSpace(t[|t| - 1]))
  {
    var l := LStrip(s);
    var t := RStrip(l);
    if t != [] {
      assert t[0] == l[0];
    }
  }

  /** `strip` keeps only characters of its input, so it keeps a lower-case string lower-case. */
  lemma StripKeepsLower(s: string)
    requires forall i :: 0 <= i < |s| ==> LowerChar(s[i]) == s[i]
    ensures forall i :: 0 <= i < |Strip(s)| ==> LowerChar(Strip(s)[i]) == Strip(s)[i]
  {
    var l := LStrip(s);
    var t := RStrip(l);
    assert Strip(s) == t;
    var k := |s| - |l|;
    assert l == s[k..];
    assert t == l[..|t|];
    forall i | 0 <= i < |t|
      ensures LowerChar(t[i]) == t[i]
    {
      assert t[i] == l[i];
      assert l[i] == s[k + i];
    }
  }

  /** Normalizing twice is normalizing once. */
  lemma NormalizeIdempotent(s: string)
    ensures Normalize(Normalize(s)) == Normalize(s)
  {
    var t := Normalize(s);
    StripKeepsLower(Downcase(s));
    NormalizeFixed(t);
  }

  /** A lower-case string without padding is its own normal form. */
  lemma NormalizeFixed(t: string)
    requires forall i :: 0 <= i < |t| ==> LowerChar(t[i]) == t[i]
    requires t == [] || (!IsSpace(t[0]) && !IsSpace(t[|t| - 1]))
    ensures Normalize(t) == t
  {
    DowncaseOfLower(t);
    StripTrimmed(t);
  }

  /** Every character of `s` is one `strip` removes. */
  predicate AllSpace(s: string) {
    forall i :: 0 <= i < |s| ==> IsSpace(s[i])
  }

  lemma {:induction false} LStripSpaces(left: string, y: string)
    requires AllSpace(left)
    ensures LStrip(left + y) == LStrip(y)
  {
    if left != [] {
      assert (left + y)[1..] == left[1..] + y;
      LStripSpaces(left[1..], y);
    } else {
      assert left + y == y;
    }
  }

  lemma {:induction false} RStripSpaces(y: string, right: string)
    requires AllSpace(right)
    ensures RStrip(y + right) == RStrip(y)
  {
    if right != [] {
      assert (y + right)[..|y + right| - 1] == y + right[..|right| - 1];
      RStripSpaces(y, right[..|right| - 1]);
    } else {
      assert y + right == y;
    }
  }

  lemma {:induction false} LStripAppend(x: string, y: string)
    ensures LStrip(x + y) == (if LStrip(x) == [] then LStrip(y) else LStrip(x) + y)
  {
    if x != [] {
      if IsSpace(x[0]) {
        assert (x + y)[1..] == x[1..] + y;
        LStripAppend(x[1..], y);
      }
    } else {
      assert x + y == y;
    }
  }

  /** Whitespace added on either side does not survive `strip`. */
  lemma StripPadded(left: string, x: string, right: string)
    requires AllSpace(left) && AllSpace(right)
    ensures Strip(left + x + right) == Strip(x)
  {
    assert left + x + right == left + (x + right);
    LStripSpaces(left, x + right);
    assert Strip(left + x + right) == RStrip(LStrip(x + right));
    LStripAppend(x, right);
    if LStrip(x) != [] {
      assert LStrip(x + right) == LStrip(x) + right;
      RStripSpaces(LStrip(x), right);
    } else {
      assert LStrip(x + right) == LStrip(right);
      LStripSpaces(right, []);
      assert right + [] == right;
    }
  }

  lemma DowncaseAppend(a: string, b: string)
    ensures Downcase(a + b) == Downcase(a) + Downcase(b)
  {
  }

  /** Padding a role with whitespace does not change its normal form. */
  lemma NormalizePadded(left: string, w: string, right: string)
    requires AllSpace(left) && AllSpace(right)
    ensures Normalize(left + w + right) == Normalize(w)
  {
    DowncaseAppend(left + w, right);
    DowncaseAppend(left, w);
    StripPadded(Downcase(left), Downcase(w), Downcase(right));
  }

  /** Lower-casing a role first does not change its normal form. */
  lemma NormalizeCase(w: string)
    ensures Normalize(Downcase(w)) == Normalize(w)
  {
    DowncaseOfLower(Downcase(w));
  }

  /**
   * Ruby's `split(sep)` before it drops trailing empty fields: the maximal
   * separator-free pieces between separators, always at least one.
   */
  function Split(s: string, sep: char): (r: seq<string>)
    ensures |r| >= 1
    ensures forall i :: 0 <= i < |r| ==> sep !in r[i]
  {
    if s == [] then [[]]
    else
      var rest := Split(s[1..], sep);
      if s[0] == sep then [[]] + rest else [[s[0]] + rest[0]] + rest[1..]
  }

  /** The inverse of `Split`: the pieces glued back with the separator. */
  function Join(fs: seq<string>, sep: char): string
    requires |fs| >= 1
  {
    if |fs| == 1 then fs[0] else fs[0] + [sep] + Join(fs[1..], sep)
  }

  /** Splitting loses nothing: joining the pieces gives the original string back. */
  lemma {:induction false} JoinSplit(s: string, sep: char)
    ensures Join(Split(s, sep), sep) == s
  {
    if s != [] {
      var rest := Split(s[1..], sep);
      JoinSplit(s[1..], sep);
      if s[0] == sep {
        assert Split(s, sep)[1..] == rest;
      } else {
        var r := Split(s, sep);
        assert r[0] == [s[0]] + rest[0];
        if |rest| == 1 {
          assert Join(r, sep) == [s[0]] + rest[0];
        } else {
          assert r[1..] == rest[1..];
          assert Join(rest, sep) == rest[0] + [sep] + Join(rest[1..], sep);
        }
      }
    }
  }

  /** Splitting at a separator splits the pieces on either side independently. */
  lemma {:induction false} SplitAtSeparator(a: string, b: string, sep: char)
    ensures Split(a + [sep] + b, sep) == Split(a, sep) + Split(b, sep)
  {
    if a == [] {
      assert a + [sep] + b == [sep] + b;
      assert ([sep] + b)[1..] == b;
    } else {
      assert (a + [sep] + b)[1..] == a[1..] + [sep] + b;
      SplitAtSeparator(a[1..], b, sep);
    }
  }

  /** A separator-free string is a single piece. */
  lemma {:induction false} SplitNoSeparator(s: string, sep: char)
    requires sep !in s
    ensures Split(s, sep) == [s]
  {
    if s != [] {
      SplitNoSeparator(s[1..], sep);
      assert [s[0]] + s[1..] == s;
    }
  }

  /** Every piece is empty exactly when the string is made of separators only. */
  lemma {:induction false} SplitAllEmpty(s: string, sep: char)
    ensures (forall i :: 0 <= i < |Split(s, sep)| ==> Split(s, sep)[i] == [])
        <==> (forall k :: 0 <= k < |s| ==> s[k] == sep)
  {
    if s != [] {
      SplitAllEmpty(s[1..], sep);
      var rest := Split(s[1..], sep);
      var r := Split(s, sep);
      if s[0] == sep {
        assert r == [[]] + rest;
        if forall i :: 0 <= i < |rest| ==> rest[i] == [] {
          forall i | 0 <= i < |r|
            ensures r[i] == []
          {
            if 0 < i {
              assert r[i] == rest[i - 1];
            }
          }
        }
        if forall i :: 0 <= i < |r| ==> r[i] == [] {
          forall i | 0 <= i < |rest|
            ensures rest[i] == []
          {
            assert rest[i] == r[i + 1];
          }
        }
        assert (forall k :: 0 <= k < |s| ==> s[k] == sep) <==> (forall k :: 0 <= k < |s[1..]| ==> s[1..][k] == sep) by {
          assert forall k :: 1 <= k < |s| ==> s[k] == s[1..][k - 1];
        }
      } else {
        assert r[0] != [];
      }
    }
  }

  /** The part of Ruby's `split` that drops trailing empty fields. */
  function DropTrailingEmpty(fs: seq<string>): (r: seq<string>)
    ensures |r| <= |fs| && r == fs[..|r|]
    ensures forall i :: |r| <= i < |fs| ==> fs[i] == []
    ensures r == [] || r[|r| - 1] != []
  {
    if fs != [] && fs[|fs| - 1] == [] then DropTrailingEmpty(fs[..|fs| - 1]) else fs
  }

  /**
   * `s.split(sep).last`: the last field Ruby's `split` keeps, or `nil` when it keeps
   * none, which happens exactly when `s` consists of separators only (the empty string included).
   */
  function LastField(s: string, sep: char): (r: Option<string>)
    ensures r.Some? ==> r.value != [] && sep !in r.value
    ensures r.None? <==> forall k :: 0 <= k < |s| ==> s[k] == sep
  {
    SplitAllEmpty(s, sep);
    var fs := DropTrailingEmpty(Split(s, sep));
    if fs == [] then None else Some(fs[|fs| - 1])
  }

  /** The last field of a qualified name is the part after its last separator. */
  lemma LastFieldQualified(prefix: string, last: string, sep: char)
    requires last != [] && sep !in last
    ensures LastField(prefix + [sep] + last, sep) == Some(last)
  {
    SplitAtSeparator(prefix, last, sep);
    SplitNoSeparator(last, sep);
  }

  /** Trailing empty fields are dropped, and nothing before a non-empty field is. */
  lemma {:induction false} DropTrailingAllEmpty(a: seq<string>, e: seq<string>)
    requires a != [] && a[|a| - 1] != []
    requires forall i :: 0 <= i < |e| ==> e[i] == []
    ensures DropTrailingEmpty(a + e) == a
  {
    if e == [] {
      assert a + e == a;
    } else {
      assert (a + e)[..|a + e| - 1] == a + e[..|e| - 1];
      DropTrailingAllEmpty(a, e[..|e| - 1]);
    }
  }

  /** A field followed by separators only splits into that field and empty fields. */
  lemma SplitTrailing(last: string, dots: string, sep: char)
    requires last != [] && sep !in last
    requires forall k :: 0 <= k < |dots| ==> dots[k] == sep
    ensures |Split(last + dots, sep)| >= 1 && Split(last + dots, sep)[0] == last
    ensures forall i :: 1 <= i < |Split(last + dots, sep)| ==> Split(last + dots, sep)[i] == []
  {
    SplitNoSeparator(last, sep);
    if dots == [] {
      assert last + dots == last;
    } else {
      assert last + dots == last + [sep] + dots[1..];
      SplitAtSeparator(last, dots[1..], sep);
      SplitAllEmpty(dots[1..], sep);
    }
  }

  /**
   * Separators at the end of a string do not count: `split` drops the empty fields they
   * make, so the last field is the run of non-separators before them, after the last
   * separator that precedes it or from the start.
   */
  lemma LastFieldTrailing(prefix: string, last: string, dots: string, sep: char)
    requires last != [] && sep !in last
    requires forall k :: 0 <= k < |dots| ==> dots[k] == sep
    ensures LastField(last + dots, sep) == Some(last)
    ensures LastField(prefix + [sep] + last + dots, sep) == Some(last)
  {
    SplitTrailing(last, dots, sep);
    var t := Split(last + dots, sep);
    var e := t[1..];
    assert t == [last] + e;
    DropTrailingAllEmpty([last], e);
    assert prefix + [sep] + last + dots == prefix + [sep] + (last + dots);
    SplitAtSeparator(prefix, last + dots, sep);
    var a := Split(prefix, sep) + [last];
    assert Split(prefix, sep) + t == a + e;
    DropTrailingAllEmpty(a, e);
  }

  /** A non-empty separator-free string is its own last field. */
  lemma LastFieldUnqualified(last: string, sep: char)
    requires last != [] && sep !in last
    ensures LastField(last, sep) == Some(last)
  {
    SplitNoSeparator(last, sep);
  }

  /** Position `p` of `s` starts a line, in the sense of a Ruby regular expression's `^`. */
  predicate LineStart(s: string, p: nat)
    requires p <= |s|
  {
    p == 0 || s[p - 1] == '\n'
  }

  /** `/^id\//` matches `s` at position `p`. */
  predicate IdPrefixAt(s: string, p: nat) {
    p + 3 <= |s| && LineStart(s, p) && s[p..p + 3] == "id/"
  }

  /** The leftmost position at or after `from` where `/^id\//` matches. */
  function FirstIdPrefix(s: string, from: nat): (r: Option<nat>)
    requires from <= |s|
    ensures r.Some? ==> from <= r.value && IdPrefixAt(s, r.value)
    ensures r.Some? ==> forall q :: from <= q < r.value ==> !IdPrefixAt(s, q)
    ensures r.None? ==> forall q :: from <= q <= |s| ==> !IdPrefixAt(s, q)
    decreases |s| - from
  {
    if IdPrefixAt(s, from) then Some(from)
    else if from == |s| then None
    else FirstIdPrefix(s, from + 1)
  }

  /**
   * `s.sub(/^id\//, '')`: the leftmost line-initial `id/` removed, once. Three characters go
   * exactly when some line starts with `id/`; putting `id/` back where the leftmost such line
   * starts restores `s`, and with no such line `s` is unchanged.
   */
  function StripIdPrefix(s: string): (r: string)
    ensures (exists q :: 0 <= q <= |s| && IdPrefixAt(s, q)) <==> |r| == |s| - 3
    ensures FirstIdPrefix(s, 0).None? ==> r == s
    ensures FirstIdPrefix(s, 0).Some? ==>
      var p := FirstIdPrefix(s, 0).value;
      p <= |r| && r[..p] + "id/" + r[p..] == s
  {
    match FirstIdPrefix(s, 0)
    case None => s
    case Some(p) =>
      var r := s[..p] + s[p + 3..];
      assert r[..p] == s[..p] && r[p..] == s[p + 3..];
      assert s[p..p + 3] == "id/";
      assert s == s[..p] + s[p..p + 3] + s[p + 3..];
      r
  }

  /** A leading `id/` is removed, and only one of them. */
  lemma StripIdLeading(t: string)
    ensures StripIdPrefix("id/" + t) == t
  {
    var s := "id/" + t;
    assert IdPrefixAt(s, 0);
    assert s[3..] == t;
  }

  /** A one-line string that does not start with `id/` is left as it is. */
  lemma StripIdSingleLine(s: string)
    requires forall k :: 0 <= k < |s| ==> s[k] != '\n'
    requires |s| < 3 || s[..3] != "id/"
    ensures StripIdPrefix(s) == s
  {
    forall q | 0 <= q <= |s|
      ensures !IdPrefixAt(s, q)
    {
      if 0 < q {
        assert s[q - 1] != '\n';
      } else if 3 <= |s| {
        assert s[q..q + 3] == s[..3];
      }
    }
  }
}
