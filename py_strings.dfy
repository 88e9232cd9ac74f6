/** The few Python `str` operations the scripts rely on, over ASCII text:
    `in`, `startswith`, `lower`, `strip`, `split`, `join`, the regular expressions
    `\d+` and `[\x00-\x1F]`, and `int()` of a digit string. */
module PyStrings {
  import opened Wrappers
  import opened ByteCodec

  // ---------------------------------------------------------------------------
  // Decoding bytes

  /** `bytes(bs).decode(errors='ignore')` on ASCII bytes: one character per byte. */
  function Ascii(bs: seq<Byte>): (s: string)
    ensures |s| == |bs|
    ensures forall k :: 0 <= k < |bs| ==> s[k] as int == bs[k]
  {
    seq(|bs|, k requires 0 <= k < |bs| => bs[k] as char)
  }

  /** Decoding distributes over concatenation. */
  lemma AsciiAppend(a: seq<Byte>, b: seq<Byte>)
    ensures Ascii(a + b) == Ascii(a) + Ascii(b)
  {
  }

  // ---------------------------------------------------------------------------
  // Substrings and prefixes

  /** Python's `p in s`. */
  predicate Contains(s: string, p: string)
  {
    exists i :: 0 <= i <= |s| && OccursAt(s, p, i)
  }

  /** `p` appears in `s` starting at index `i`. */
  predicate OccursAt(s: string, p: string, i: int)
  {
    0 <= i && i + |p| <= |s| && s[i..i + |p|] == p
  }

  /** Python's `s.startswith(p)`. */
  predicate StartsWith(s: string, p: string)
  {
    |p| <= |s| && s[..|p|] == p
  }

  /** A string that starts with `p` contains it. */
  lemma StartsWithContains(s: string, p: string)
    requires StartsWith(s, p)
    ensures Contains(s, p)
  {
    assert OccursAt(s, p, 0);
  }

  /** Text that contains `p` still contains it behind any prefix and before any
      suffix. */
  lemma ContainsWithin(a: string, s: string, b: string, p: string)
    requires Contains(s, p)
    ensures Contains(a + s + b, p)
  {
    var i :| 0 <= i <= |s| && OccursAt(s, p, i);
    assert (a + s + b)[|a| + i..|a| + i + |p|] == s[i..i + |p|];
    assert OccursAt(a + s + b, p, |a| + i);
  }

  /** Whatever contains `q` contains every prefix of `q`. */
  lemma ContainsPrefix(s: string, q: string, p: string)
    requires Contains(s, q) && StartsWith(q, p)
    ensures Contains(s, p)
  {
    var i :| 0 <= i <= |s| && OccursAt(s, q, i);
    assert s[i..i + |p|] == q[..|p|];
    assert OccursAt(s, p, i);
  }

  // ---------------------------------------------------------------------------
  // Case

  function LowerChar(c: char): (d: char)
  {
    if 'A' <= c <= 'Z' then (c as int + 32) as char else c
  }

  /** Python's `s.lower()` on ASCII letters. */
  function Lower(s: string): (r: string)
    ensures |r| == |s|
    ensures forall k :: 0 <= k < |s| ==> r[k] == LowerChar(s[k])
    ensures forall k :: 0 <= k < |r| ==> !('A' <= r[k] <= 'Z')
  {
    seq(|s|, k requires 0 <= k < |s| => LowerChar(s[k]))
  }

  /** Lower-casing twice changes nothing more. */
  lemma LowerIdempotent(s: string)
    ensures Lower(Lower(s)) == Lower(s)
  {
  }

  // ---------------------------------------------------------------------------
  // Whitespace stripping

  /** The characters below 0x80 that Python's `str.isspace()` accepts:
      tab, line feed, vertical tab, form feed, carriage return,
      the four separators 0x1C..0x1F, and space. */
  predicate IsSpace(c: char)
  {
    (9 <= c as int <= 13) || (0x1C <= c as int <= 0x20)
  }

  /** The index of the first non-whitespace character, or |s|. */
  function StripStart(s: string): (i: nat)
    ensures i <= |s|
    ensures forall k :: 0 <= k < i ==> IsSpace(s[k])
    ensures i < |s| ==> !IsSpace(s[i])
  {
    if s == [] || !IsSpace(s[0]) then 0 else 1 + StripStart(s[1..])
  }

  /** One past the last non-whitespace character, or 0. */
  function StripEnd(s: string): (j: nat)
    ensures j <= |s|
    ensures forall k :: j <= k < |s| ==> IsSpace(s[k])
    ensures 0 < j ==> !IsSpace(s[j - 1])
  {
    if s == [] || !IsSpace(s[|s| - 1]) then |s| else StripEnd(s[..|s| - 1])
  }

  /** Python's `s.strip()`: the whitespace at both ends removed. */
  function Strip(s: string): (r: string)
    ensures |r| <= |s|
    ensures r == [] || (!IsSpace(r[0]) && !IsSpace(r[|r| - 1]))
    ensures r == [] <==> forall k :: 0 <= k < |s| ==> IsSpace(s[k])
    ensures r != [] ==> StripStart(s) < StripEnd(s) && r == s[StripStart(s)..StripEnd(s)]
  {
    var i := StripStart(s);
    if i == |s| then [] else s[i..StripEnd(s)]
  }

  /** Strip is characterised by what it keeps: whitespace around a core whose two ends
      are not whitespace is exactly what it removes. */
  lemma {:induction false} StripOfPadded(a: string, core: string, b: string)
    requires forall k :: 0 <= k < |a| ==> IsSpace(a[k])
    requires forall k :: 0 <= k < |b| ==> IsSpace(b[k])
    requires core != [] ==> !IsSpace(core[0]) && !IsSpace(core[|core| - 1])
    ensures Strip(a + core + b) == core
  {
    var s := a + core + b;
    if core == [] {
      assert s == a + b;
      SpacesAppend(a, b);
    } else {
      assert s == a + (core + b);
      StripStartAfterSpaces(a, core + b);
      StripEndBeforeSpaces(a + core, b);
      assert s[|a|..|a| + |core|] == core;
    }
  }

  lemma SpacesAppend(a: string, b: string)
    requires forall k :: 0 <= k < |a| ==> IsSpace(a[k])
    requires forall k :: 0 <= k < |b| ==> IsSpace(b[k])
    ensures forall k :: 0 <= k < |a + b| ==> IsSpace((a + b)[k])
  {
    forall k | 0 <= k < |a + b| ensures IsSpace((a + b)[k]) {
      if k < |a| { assert (a + b)[k] == a[k]; } else { assert (a + b)[k] == b[k - |a|]; }
    }
  }

  lemma StripStartAfterSpaces(a: string, t: string)
    requires forall k :: 0 <= k < |a| ==> IsSpace(a[k])
    requires t != [] && !IsSpace(t[0])
    ensures StripStart(a + t) == |a|
  {
    var s := a + t;
    assert s[|a|] == t[0];
    assert forall k :: 0 <= k < |a| ==> s[k] == a[k];
  }

  lemma StripEndBeforeSpaces(t: string, b: string)
    requires forall k :: 0 <= k < |b| ==> IsSpace(b[k])
    requires t != [] && !IsSpace(t[|t| - 1])
    ensures StripEnd(t + b) == |t|
  {
    var s := t + b;
    assert s[|t| - 1] == t[|t| - 1];
    assert forall k :: |t| <= k < |s| ==> s[k] == b[k - |t|];
  }

  /** Stripping a stripped string changes nothing. */
  lemma StripIdempotent(s: string)
    ensures Strip(Strip(s)) == Strip(s)
  {
    StripOfPadded([], Strip(s), []);
    assert [] + Strip(s) + [] == Strip(s);
  }

  // ---------------------------------------------------------------------------
  // Control characters

  predicate IsControl(c: char)
  {
    c as int < 0x20
  }

  /** `re.sub(r'[\x00-\x1F]', '', s)`: every control character deleted, the others kept
      in order. */
  function RemoveControls(s: string): (r: string)
    ensures |r| <= |s|
    ensures forall k :: 0 <= k < |r| ==> !IsControl(r[k])
    ensures forall c :: c in r ==> c in s
    ensures (forall k :: 0 <= k < |s| ==> !IsControl(s[k])) ==> r == s
  {
    if s == [] then []
    else (if IsControl(s[0]) then [] else [s[0]]) + RemoveControls(s[1..])
  }

  /** Control characters are removed one at a time, so removal distributes over
      concatenation. */
  lemma {:induction false} RemoveControlsAppend(a: string, b: string)
    ensures RemoveControls(a + b) == RemoveControls(a) + RemoveControls(b)
    decreases |a|
  {
    if a == [] {
      assert a + b == b;
    } else {
      assert (a + b)[0] == a[0];
      assert (a + b)[1..] == a[1..] + b;
      RemoveControlsAppend(a[1..], b);
      var h := if IsControl(a[0]) then [] else [a[0]];
      var x, y := RemoveControls(a[1..]), RemoveControls(b);
      assert RemoveControls(a + b) == h + (x + y);
      assert h + (x + y) == (h + x) + y;
    }
  }

  // ---------------------------------------------------------------------------
  // Splitting and joining on one character

  /** The index of the first `c` in `s`, or |s|. */
  function IndexOf(s: string, c: char): (i: nat)
    ensures i <= |s|
    ensures forall k :: 0 <= k < i ==> s[k] != c
    ensures i < |s| ==> s[i] == c
  {
    if s == [] || s[0] == c then 0 else 1 + IndexOf(s[1..], c)
  }

  /** Python's `sep.join(parts)`. */
  function Join(parts: seq<string>, sep: string): (s: string)
    ensures parts == [] ==> s == []
    ensures |parts| == 1 ==> s == parts[0]
  {
    if parts == [] then []
    else if |parts| == 1 then parts[0]
    else parts[0] + sep + Join(parts[1..], sep)
  }

  /** Python's `s.split(c)` for a one-character separator: at least one piece, no piece
      holds `c`, and joining the pieces with `c` gives `s` back. */
  function Split(s: string, c: char): (parts: seq<string>)
    ensures |parts| >= 1
    ensures forall k :: 0 <= k < |parts| ==> c !in parts[k]
    ensures Join(parts, [c]) == s
    decreases |s|
  {
    var i := IndexOf(s, c);
    if i == |s| then [s]
    else
      var rest := Split(s[i + 1..], c);
      assert s == s[..i] + [c] + s[i + 1..];
      [s[..i]] + rest
  }

  /** Splitting undoes joining when no piece holds the separator. */
  lemma {:induction false} SplitJoin(parts: seq<string>, c: char)
    requires parts != []
    requires forall k :: 0 <= k < |parts| ==> c !in parts[k]
    ensures Split(Join(parts, [c]), c) == parts
    decreases |parts|
  {
    var s := Join(parts, [c]);
    if |parts| == 1 {
      assert IndexOf(s, c) == |s|;
    } else {
      SplitJoin(parts[1..], c);
      SplitJoinStep(parts, c);
    }
  }

  /** The step of SplitJoin: the first piece comes off at the first separator. */
  lemma SplitJoinStep(parts: seq<string>, c: char)
    requires |parts| >= 2 && c !in parts[0]
    requires Split(Join(parts[1..], [c]), c) == parts[1..]
    ensures Split(Join(parts, [c]), c) == parts
  {
    var tail := Join(parts[1..], [c]);
    JoinCons(parts, [c]);
    IndexOfAfter(parts[0], c, [c] + tail);
    AroundSeparator(parts[0], c, tail);
    SplitAt(Join(parts, [c]), c, |parts[0]|);
    assert parts == [parts[0]] + parts[1..];
  }

  lemma JoinCons(parts: seq<string>, sep: string)
    requires |parts| >= 2
    ensures Join(parts, sep) == parts[0] + (sep + Join(parts[1..], sep))
  {
  }

  /** The pieces of `p + ([c] + t)` either side of the `c` at index |p|. */
  lemma AroundSeparator(p: string, c: char, t: string)
    ensures (p + ([c] + t))[..|p|] == p
    ensures (p + ([c] + t))[|p| + 1..] == t
  {
  }

  /** One step of Split, at the first separator. */
  lemma SplitAt(s: string, c: char, i: nat)
    requires i < |s| && IndexOf(s, c) == i
    ensures Split(s, c) == [s[..i]] + Split(s[i + 1..], c)
  {
  }

  lemma IndexOfAfter(p: string, c: char, t: string)
    requires c !in p
    requires t != [] && t[0] == c
    ensures IndexOf(p + t, c) == |p|
  {
    var s := p + t;
    assert s[|p|] == c;
    assert forall k :: 0 <= k < |p| ==> s[k] == p[k];
  }

  // ---------------------------------------------------------------------------
  // Decimal digits

  predicate IsDigit(c: char)
  {
    '0' as int <= c as int <= '9' as int
  }

  predicate HasDigit(s: string)
  {
    exists k :: 0 <= k < |s| && IsDigit(s[k])
  }

  /** The index of the first digit, or |s|. */
  function FirstDigit(s: string): (i: nat)
    ensures i <= |s|
    ensures forall k :: 0 <= k < i ==> !IsDigit(s[k])
    ensures i < |s| <==> HasDigit(s)
    ensures i < |s| ==> IsDigit(s[i])
  {
    if s == [] || IsDigit(s[0]) then 0 else 1 + FirstDigit(s[1..])
  }

  /** The length of the run of digits that starts `s`. */
  function DigitRunLength(s: string): (n: nat)
    ensures n <= |s|
    ensures forall k :: 0 <= k < n ==> IsDigit(s[k])
    ensures n < |s| ==> !IsDigit(s[n])
  {
    if s == [] || !IsDigit(s[0]) then 0 else 1 + DigitRunLength(s[1..])
  }

  /** `re.search(r'\d+', s)`: the leftmost run of digits, taken as long as it goes,
      or None when `s` has no digit. */
  function SearchDigits(s: string): (m: Option<string>)
    ensures m.None? <==> !HasDigit(s)
    ensures m.Some? ==> var i := FirstDigit(s);
      && m.value != []
      && i + |m.value| <= |s|
      && m.value == s[i..i + |m.value|]
      && (forall k :: 0 <= k < |m.value| ==> IsDigit(m.value[k]))
      && (i + |m.value| < |s| ==> !IsDigit(s[i + |m.value|]))
  {
    var i := FirstDigit(s);
    if i == |s| then None else Some(s[i..i + DigitRunLength(s[i..])])
  }

  /** `int(ds)` for a string of ASCII digits. */
  function DecimalValue(ds: string): (n: nat)
    requires forall k :: 0 <= k < |ds| ==> IsDigit(ds[k])
  {
    if ds == [] then 0
    else
      assert IsDigit(ds[|ds| - 1]);
      10 * DecimalValue(ds[..|ds| - 1]) + (ds[|ds| - 1] as int - '0' as int)
  }

  /** `str(n)`. */
  function DecimalString(n: nat): (ds: string)
    ensures ds != []
    ensures forall k :: 0 <= k < |ds| ==> IsDigit(ds[k])
  {
    var last := [('0' as int + n % 10) as char];
    if n < 10 then last else DecimalString(n / 10) + last
  }

  /** `int(str(n)) == n`. */
  lemma {:induction false} DecimalRoundTrip(n: nat)
    ensures DecimalValue(DecimalString(n)) == n
  {
    var ds := DecimalString(n);
    if n >= 10 {
      DecimalRoundTrip(n / 10);
      assert ds[..|ds| - 1] == DecimalString(n / 10);
    }
  }

  /** `int(re.search(r'\d+', s).group())`, when there is a match. */
  function LeadingNumber(s: string): (n: nat)
    requires HasDigit(s)
  {
    DecimalValue(SearchDigits(s).value)
  }

  lemma {:induction false} FirstDigitAfter(p: string, t: string)
    requires !HasDigit(p)
    ensures FirstDigit(p + t) == |p| + FirstDigit(t)
    decreases |p|
  {
    if p != [] {
      assert (p + t)[0] == p[0];
      assert (p + t)[1..] == p[1..] + t;
      assert !HasDigit(p[1..]) by {
        forall k | 0 <= k < |p[1..]| ensures !IsDigit(p[1..][k]) {
          assert p[1..][k] == p[k + 1];
        }
      }
      FirstDigitAfter(p[1..], t);
    } else {
      assert p + t == t;
    }
  }

  lemma {:induction false} DigitRunAppend(ds: string, t: string)
    requires forall k :: 0 <= k < |ds| ==> IsDigit(ds[k])
    requires t == [] || !IsDigit(t[0])
    ensures DigitRunLength(ds + t) == |ds|
    decreases |ds|
  {
    if ds != [] {
      assert (ds + t)[0] == ds[0];
      assert (ds + t)[1..] == ds[1..] + t;
      DigitRunAppend(ds[1..], t);
    } else {
      assert ds + t == t;
    }
  }

  /** The number `int(re.search(r'\d+', s).group())` reads back is the one written
      after a digit-free prefix: `int(re.search(r'\d+', p + str(n) + t).group()) == n`
      when `t` does not begin with a digit. */
  lemma LeadingNumberOf(p: string, n: nat, t: string)
    requires !HasDigit(p)
    requires t == [] || !IsDigit(t[0])
    ensures HasDigit(p + (DecimalString(n) + t))
    ensures LeadingNumber(p + (DecimalString(n) + t)) == n
  {
    SearchDigitsAfter(p, DecimalString(n), t);
    DecimalRoundTrip(n);
  }

  /** `re.search(r'\d+', ...)` finds a run of digits placed after a digit-free prefix
      and before a non-digit. */
  lemma SearchDigitsAfter(p: string, ds: string, t: string)
    requires !HasDigit(p)
    requires ds != [] && forall k :: 0 <= k < |ds| ==> IsDigit(ds[k])
    requires t == [] || !IsDigit(t[0])
    ensures SearchDigits(p + (ds + t)).Some? && SearchDigits(p + (ds + t)).value == ds
  {
    FirstDigitOfMiddle(p, ds, t);
    DigitRunOfMiddle(p, ds, t);
    SlicesOfMiddle(p, ds, t);
    SearchDigitsAt(p + (ds + t), |p|, ds);
  }

  lemma FirstDigitOfMiddle(p: string, ds: string, t: string)
    requires !HasDigit(p)
    requires ds != [] && IsDigit(ds[0])
    ensures FirstDigit(p + (ds + t)) == |p|
  {
    FirstDigitAfter(p, ds + t);
    assert (ds + t)[0] == ds[0];
  }

  lemma DigitRunOfMiddle(p: string, ds: string, t: string)
    requires forall k :: 0 <= k < |ds| ==> IsDigit(ds[k])
    requires t == [] || !IsDigit(t[0])
    ensures DigitRunLength((p + (ds + t))[|p|..]) == |ds|
  {
    DigitRunAppend(ds, t);
    SlicesOfMiddle(p, ds, t);
  }

  /** The two slices of `p + (m + t)` that start where `m` does. */
  lemma SlicesOfMiddle<T>(p: seq<T>, m: seq<T>, t: seq<T>)
    ensures (p + (m + t))[|p|..] == m + t
    ensures (p + (m + t))[|p|..|p| + |m|] == m
  {
  }

  /** The search finds `ds` when the first digit of `s` is at `i` and the run of digits
      there is `ds`. */
  lemma SearchDigitsAt(s: string, i: nat, ds: string)
    requires i < |s| && FirstDigit(s) == i
    requires i + |ds| <= |s| && DigitRunLength(s[i..]) == |ds| && s[i..i + |ds|] == ds
    ensures SearchDigits(s).Some? && SearchDigits(s).value == ds
  {
  }
}
