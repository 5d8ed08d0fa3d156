// String helpers the validators and the routes are built from: the character search behind the
// regular expressions `/[A-Z]/`, `/[0-9]/` and `/^\S*$/`, `String.prototype.includes`, the first
// two fields of `split(":")`, JavaScript's `Number(...)` on an id string, and the way zod
// collects the messages of every failed check.
module Text {
  import opened Wrappers

  /** True iff some character of `s` satisfies `p` (what `/[...]/.test(s)` decides). */
  function Exists(s: string, p: char -> bool): (r: bool)
    ensures r <==> exists i :: 0 <= i < |s| && p(s[i])
  {
    if s == [] then false
    else p(s[0]) || (assert forall i :: 0 < i < |s| ==> s[i] == s[1..][i - 1]; Exists(s[1..], p))
  }

  /** `t` stands in `s` starting at position `i`. */
  predicate OccursAt(s: string, t: string, i: nat)
  {
    i + |t| <= |s| && s[i..i + |t|] == t
  }

  /** An occurrence one place further in `s` is an occurrence in the tail of `s`. */
  lemma OccursAtShift(s: string, t: string, i: nat)
    requires s != []
    ensures OccursAt(s, t, i + 1) <==> OccursAt(s[1..], t, i)
  {
    if i + 1 + |t| <= |s| {
      assert s[i + 1..i + 1 + |t|] == s[1..][i..i + |t|];
    }
  }

  /** `s.includes(t)`: `t` occurs in `s` as a contiguous piece. */
  function Includes(s: string, t: string): (r: bool)
    ensures r <==> exists i: nat :: OccursAt(s, t, i)
    decreases |s|
  {
    if t <= s then
      assert OccursAt(s, t, 0);
      true
    else if s == [] then
      false
    else
      var r := Includes(s[1..], t);
      assert !OccursAt(s, t, 0);
      assert forall i: nat :: OccursAt(s, t, i + 1) <==> OccursAt(s[1..], t, i) by {
        forall i: nat ensures OccursAt(s, t, i + 1) <==> OccursAt(s[1..], t, i) {
          OccursAtShift(s, t, i);
        }
      }
      if r then
        var i: nat :| OccursAt(s[1..], t, i);
        assert OccursAt(s, t, i + 1);
        r
      else
        assert forall i: nat :: OccursAt(s, t, i) ==> i > 0 && OccursAt(s[1..], t, i - 1);
        r
  }

  /** For a one-character pattern, `includes` is plain membership. */
  lemma IncludesChar(s: string, c: char)
    ensures Includes(s, [c]) <==> c in s
  {
    if c in s {
      var i :| 0 <= i < |s| && s[i] == c;
      assert s[i..i + 1] == [c];
      assert OccursAt(s, [c], i);
    }
    if Includes(s, [c]) {
      var i: nat :| OccursAt(s, [c], i);
      assert s[i] == s[i..i + 1][0];
    }
  }

  /** For a two-character pattern, `includes` asks for the two characters side by side. */
  lemma IncludesPair(s: string, a: char, b: char)
    ensures Includes(s, [a, b]) <==> exists i: nat :: i + 1 < |s| && s[i] == a && s[i + 1] == b
  {
    if exists i: nat :: i + 1 < |s| && s[i] == a && s[i + 1] == b {
      var i: nat :| i + 1 < |s| && s[i] == a && s[i + 1] == b;
      assert s[i..i + 2] == [a, b];
      assert OccursAt(s, [a, b], i);
    }
    if Includes(s, [a, b]) {
      var i: nat :| OccursAt(s, [a, b], i);
      assert s[i] == s[i..i + 2][0] && s[i + 1] == s[i..i + 2][1];
    }
  }

  /** The position of the first `c` in `s`, if there is one. */
  function IndexOf(s: string, c: char): (r: Option<nat>)
    ensures r.None? <==> c !in s
    ensures r.Some? ==> r.value < |s| && s[r.value] == c && c !in s[..r.value]
  {
    if s == [] then None
    else if s[0] == c then Some(0)
    else
      match IndexOf(s[1..], c)
      case None => None
      case Some(k) =>
        assert s[..k + 1] == [s[0]] + s[1..][..k];
        Some(k + 1)
  }

  /**
   * The first and second field of `s.split(sep)`: the text before the first `sep`, and the text
   * between the first and the second `sep` (or up to the end). When `s` holds no `sep`, the split
   * has a single field and the second one is missing.
   */
  function FirstTwoFields(s: string, sep: char): (r: Option<(string, string)>)
    ensures r.None? <==> sep !in s
    ensures r.Some? ==> sep !in r.value.0 && sep !in r.value.1
    ensures r.Some? ==> exists rest :: s == r.value.0 + [sep] + r.value.1 + rest
                                       && (rest == [] || rest[0] == sep)
  {
    match IndexOf(s, sep)
    case None => None
    case Some(i) =>
      var tail := s[i + 1..];
      var second := match IndexOf(tail, sep) case None => tail case Some(j) => tail[..j];
      var rest := s[i + 1 + |second|..];
      assert s == s[..i] + [sep] + second + rest;
      Some((s[..i], second))
  }

  /** A character beyond U+FFFF, which JavaScript stores as two UTF-16 code units. */
  predicate IsAstral(c: char) { c as int >= 0x1_0000 }

  /** `s.length` in JavaScript: the number of UTF-16 code units of `s`. */
  function Utf16Length(s: string): (n: nat)
    ensures |s| <= n <= 2 * |s|
    ensures s != [] && IsAstral(s[0]) ==> n > |s|
  {
    if s == [] then 0 else (if IsAstral(s[0]) then 2 else 1) + Utf16Length(s[1..])
  }

  /** A single character is one code unit, or two beyond U+FFFF. */
  lemma Utf16LengthChar(c: char)
    ensures Utf16Length([c]) == if IsAstral(c) then 2 else 1
  {
    assert [c][1..] == [];
  }

  /** The JavaScript length of a concatenation is the sum of the lengths of its parts. */
  lemma {:induction false} Utf16LengthAppend(a: string, b: string)
    ensures Utf16Length(a + b) == Utf16Length(a) + Utf16Length(b)
    decreases |a|
  {
    if a != [] {
      assert (a + b)[0] == a[0];
      assert (a + b)[1..] == a[1..] + b;
      Utf16LengthAppend(a[1..], b);
    } else {
      assert a + b == b;
    }
  }

  /** The JavaScript length is the character count exactly when no character lies beyond U+FFFF. */
  lemma {:induction false} Utf16LengthIsCount(s: string)
    ensures Utf16Length(s) == |s| <==> forall i :: 0 <= i < |s| ==> !IsAstral(s[i])
  {
    if s != [] {
      Utf16LengthIsCount(s[1..]);
      assert forall i :: 0 < i < |s| ==> s[i] == s[1..][i - 1];
      assert (forall i :: 0 <= i < |s[1..]| ==> !IsAstral(s[1..][i])) ==> forall i :: 0 < i < |s| ==> !IsAstral(s[i]);
    }
  }

  predicate IsDigit(c: char) { '0' <= c <= '9' }

  /** The value of a string of decimal digits, most significant first. */
  function DigitsValue(s: string): (n: nat)
    requires forall i :: 0 <= i < |s| ==> IsDigit(s[i])
    decreases |s|
  {
    if s == [] then 0
    else
      assert IsDigit(s[|s| - 1]);
      10 * DigitsValue(s[..|s| - 1]) + (s[|s| - 1] as int - '0' as int)
  }

  /**
   * `Number(s)` as far as an id string needs it: the empty string is 0, a string of decimal
   * digits is its value, and everything else is taken as not numeric (`NaN`).
   */
  function NumberOf(s: string): (r: Option<nat>)
    ensures s == [] ==> r == Some(0)
    ensures r.Some? <==> forall i :: 0 <= i < |s| ==> IsDigit(s[i])
  {
    if forall i :: 0 <= i < |s| ==> IsDigit(s[i]) then Some(DigitsValue(s)) else None
  }

  /** The character of a decimal digit. */
  function DigitChar(d: nat): (c: char)
    requires d < 10
    ensures IsDigit(c) && c as int - '0' as int == d
  {
    ('0' as int + d) as char
  }

  /** The usual decimal numeral of `n`, with no leading zero: what `String(n)` prints. */
  function Decimal(n: nat): (s: string)
    ensures s != [] && forall i :: 0 <= i < |s| ==> IsDigit(s[i])
  {
    if n < 10 then [DigitChar(n)] else Decimal(n / 10) + [DigitChar(n % 10)]
  }

  /** `Number` reads the numeral of `n` back as `n`. */
  lemma {:induction false} NumberOfDecimal(n: nat)
    ensures NumberOf(Decimal(n)) == Some(n)
  {
    var s := Decimal(n);
    if n >= 10 {
      NumberOfDecimal(n / 10);
      assert s[..|s| - 1] == Decimal(n / 10);
      assert s[|s| - 1] == DigitChar(n % 10);
    } else {
      assert s[..|s| - 1] == [] && s[|s| - 1] == DigitChar(n);
      assert DigitsValue(s) == 10 * DigitsValue([]) + n;
    }
  }

  /** A leading zero does not change what `Number` reads, so "007" names the same id as "7". */
  lemma {:induction false} NumberOfLeadingZero(s: string)
    ensures NumberOf(['0'] + s) == NumberOf(s)
    decreases |s|
  {
    var z := ['0'] + s;
    assert forall i :: 0 <= i < |s| ==> s[i] == z[i + 1];
    if forall i :: 0 <= i < |s| ==> IsDigit(s[i]) {
      assert forall i :: 0 <= i < |z| ==> IsDigit(z[i]) by {
        forall i | 0 <= i < |z| ensures IsDigit(z[i]) {
          if i > 0 { assert z[i] == s[i - 1]; }
        }
      }
      if s != [] {
        var init := s[..|s| - 1];
        assert forall i :: 0 <= i < |init| ==> IsDigit(init[i]) by {
          forall i | 0 <= i < |init| ensures IsDigit(init[i]) { assert init[i] == s[i]; }
        }
        NumberOfLeadingZero(init);
        assert z[..|z| - 1] == ['0'] + init;
        assert z[|z| - 1] == s[|s| - 1];
      }
    } else {
      var i :| 0 <= i < |s| && !IsDigit(s[i]);
      assert !IsDigit(z[i + 1]);
    }
  }

  /**
   * The messages of the failed checks, in the order the checks are declared: the check list
   * `msgs` is run in full and every failure is kept, as zod does for a string schema.
   */
  function Select(msgs: seq<string>, failed: seq<bool>): (r: seq<string>)
    requires |msgs| == |failed|
  {
    if msgs == [] then []
    else (if failed[0] then [msgs[0]] else []) + Select(msgs[1..], failed[1..])
  }

  /** `a` is `b` with some elements left out, the others kept in order. */
  predicate IsSubsequence(a: seq<string>, b: seq<string>)
    decreases |b|
  {
    if a == [] then true
    else if b == [] then false
    else if a[0] == b[0] then IsSubsequence(a[1..], b[1..])
    else IsSubsequence(a, b[1..])
  }

  /** The selected messages keep the declaration order of the checks. */
  lemma {:induction false} SelectIsSubsequence(msgs: seq<string>, failed: seq<bool>)
    requires |msgs| == |failed|
    ensures IsSubsequence(Select(msgs, failed), msgs)
    decreases |msgs|
  {
    if msgs != [] {
      SelectIsSubsequence(msgs[1..], failed[1..]);
      var rest := Select(msgs[1..], failed[1..]);
      if failed[0] {
        assert Select(msgs, failed) == [msgs[0]] + rest;
        assert ([msgs[0]] + rest)[1..] == rest;
      } else {
        assert Select(msgs, failed) == rest;
        SkipHead(rest, msgs);
      }
    }
  }

  /** A subsequence of the tail of `b` is a subsequence of `b`. */
  lemma SkipHead(a: seq<string>, b: seq<string>)
    requires b != [] && IsSubsequence(a, b[1..])
    ensures IsSubsequence(a, b)
    decreases |a| + |b|, 1
  {
    if a != [] && a[0] == b[0] {
      DropHead(a, b[1..]);
    }
  }

  /** Leaving out the first element of a subsequence keeps it a subsequence. */
  lemma {:induction false} DropHead(a: seq<string>, c: seq<string>)
    requires a != [] && IsSubsequence(a, c)
    ensures IsSubsequence(a[1..], c)
    decreases |a| + |c|, 0
  {
    if a[0] == c[0] {
      SkipHead(a[1..], c);
    } else {
      DropHead(a, c[1..]);
      SkipHead(a[1..], c);
    }
  }

  /** A message is selected exactly when some check carrying it failed. */
  lemma {:induction false} SelectMember(msgs: seq<string>, failed: seq<bool>, m: string)
    requires |msgs| == |failed|
    ensures m in Select(msgs, failed) <==> exists i :: 0 <= i < |msgs| && msgs[i] == m && failed[i]
    decreases |msgs|
  {
    if msgs != [] {
      SelectMember(msgs[1..], failed[1..], m);
      if m in Select(msgs[1..], failed[1..]) {
        var i :| 0 <= i < |msgs[1..]| && msgs[1..][i] == m && failed[1..][i];
        assert msgs[i + 1] == m && failed[i + 1];
      }
      if exists i :: 0 <= i < |msgs| && msgs[i] == m && failed[i] {
        var i :| 0 <= i < |msgs| && msgs[i] == m && failed[i];
        if i > 0 {
          assert msgs[1..][i - 1] == m && failed[1..][i - 1];
        }
      }
    }
  }

  /** No message occurs twice. */
  predicate Distinct(msgs: seq<string>)
  {
    forall i, j :: 0 <= i < j < |msgs| ==> msgs[i] != msgs[j]
  }

  /** With distinct messages, the `k`-th message is selected exactly when the `k`-th check failed. */
  lemma SelectAt(msgs: seq<string>, failed: seq<bool>, k: nat)
    requires |msgs| == |failed| && k < |msgs| && Distinct(msgs)
    ensures msgs[k] in Select(msgs, failed) <==> failed[k]
  {
    SelectMember(msgs, failed, msgs[k]);
    if msgs[k] in Select(msgs, failed) {
      var i :| 0 <= i < |msgs| && msgs[i] == msgs[k] && failed[i];
      assert i == k;
    }
  }

  /** Nothing is selected exactly when no check failed. */
  lemma {:induction false} SelectEmpty(msgs: seq<string>, failed: seq<bool>)
    requires |msgs| == |failed|
    ensures Select(msgs, failed) == [] <==> forall i :: 0 <= i < |failed| ==> !failed[i]
    decreases |msgs|
  {
    if msgs != [] {
      SelectEmpty(msgs[1..], failed[1..]);
      if forall i :: 0 <= i < |failed| ==> !failed[i] {
        assert forall i :: 0 <= i < |failed[1..]| ==> !failed[1..][i] by {
          forall i | 0 <= i < |failed[1..]| ensures !failed[1..][i] { assert failed[1..][i] == failed[i + 1]; }
        }
      } else if !failed[0] {
        var i :| 0 <= i < |failed| && failed[i];
        assert failed[1..][i - 1];
      }
    }
  }

  /** A check that passed keeps the selection shorter than the full message list. */
  lemma {:induction false} SelectShorter(msgs: seq<string>, failed: seq<bool>, k: nat)
    requires |msgs| == |failed| && k < |failed| && !failed[k]
    ensures |Select(msgs, failed)| < |msgs|
    decreases |msgs|
  {
    SelectAtMost(msgs[1..], failed[1..]);
    if k > 0 {
      assert !failed[1..][k - 1];
      SelectShorter(msgs[1..], failed[1..], k - 1);
    }
  }

  lemma {:induction false} SelectAtMost(msgs: seq<string>, failed: seq<bool>)
    requires |msgs| == |failed|
    ensures |Select(msgs, failed)| <= |msgs|
    decreases |msgs|
  {
    if msgs != [] { SelectAtMost(msgs[1..], failed[1..]); }
  }
}
