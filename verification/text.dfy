/** String operations with the semantics of the JavaScript built-ins the server
    uses (`\s`, `trim`, `replace(/\s+/g, " ")`, `join`, `startsWith`, `endsWith`,
    `toLowerCase`, number-to-string), over `seq<char>`. */
module Text {
  import opened Wrappers

  /** The characters JavaScript's `\s` matches; `String.prototype.trim` strips
      exactly the same set (WhiteSpace and LineTerminator). */
  predicate IsSpace(c: char)
  {
    var n := c as int;
    || n == 0x09 || n == 0x0A || n == 0x0B || n == 0x0C || n == 0x0D || n == 0x20
    || n == 0xA0 || n == 0x1680 || (0x2000 <= n <= 0x200A)
    || n == 0x2028 || n == 0x2029 || n == 0x202F || n == 0x205F || n == 0x3000 || n == 0xFEFF
  }

  predicate NoSpace(s: string)
  {
    forall i :: 0 <= i < |s| ==> !IsSpace(s[i])
  }

  /** No two adjacent characters of `s` are both whitespace. */
  predicate NoDoubleSpace(s: string)
  {
    forall i :: 0 < i < |s| ==> !(IsSpace(s[i - 1]) && IsSpace(s[i]))
  }

  /** Every whitespace character of `s` is a plain space. */
  predicate OnlyPlainSpaces(s: string)
  {
    forall i :: 0 <= i < |s| && IsSpace(s[i]) ==> s[i] == ' '
  }

  /** The non-whitespace characters of `s`, in order. */
  function Visible(s: string): string
  {
    if s == [] then [] else (if IsSpace(s[0]) then [] else [s[0]]) + Visible(s[1..])
  }

  predicate StartsWith(s: string, prefix: string)
  {
    |prefix| <= |s| && s[..|prefix|] == prefix
  }

  predicate EndsWith(s: string, suffix: string)
  {
    |suffix| <= |s| && s[|s| - |suffix|..] == suffix
  }

  /** A concatenation starts with its first part and ends with its last. */
  lemma ConcatEnds(a: string, b: string, c: string)
    ensures StartsWith(a + b + c, a) && EndsWith(a + b + c, c)
  {
    assert (a + b + c)[..|a|] == a;
    assert (a + b + c)[|a + b + c| - |c|..] == c;
  }

  // ---------- trim ----------

  function TrimStart(s: string): (r: string)
    ensures |r| <= |s| && r == s[|s| - |r|..]
    ensures forall i :: 0 <= i < |s| - |r| ==> IsSpace(s[i])
    ensures r == [] || !IsSpace(r[0])
  {
    if s != [] && IsSpace(s[0]) then TrimStart(s[1..]) else s
  }

  function TrimEnd(s: string): (r: string)
    ensures |r| <= |s| && r == s[..|r|]
    ensures forall i :: |r| <= i < |s| ==> IsSpace(s[i])
    ensures r == [] || !IsSpace(r[|r| - 1])
  {
    if s != [] && IsSpace(s[|s| - 1]) then TrimEnd(s[..|s| - 1]) else s
  }

  /** `String.prototype.trim`: the result is a slice of `s` that neither starts
      nor ends with whitespace (`TrimCutsWhitespace`: only whitespace was cut
      off). */
  function Trim(s: string): (r: string)
    ensures r == [] || (!IsSpace(r[0]) && !IsSpace(r[|r| - 1]))
    ensures LeadingSpaces(s) + |r| <= |s| && r == s[LeadingSpaces(s)..LeadingSpaces(s) + |r|]
    ensures NoSpace(s) ==> r == s
  {
    var t := TrimStart(s);
    var r := TrimEnd(t);
    assert r == s[|s| - |t|..|s| - |t| + |r|];
    r
  }

  /** What `trim` cuts before and after its result is whitespace. */
  lemma TrimCutsWhitespace(s: string)
    ensures forall i :: 0 <= i < LeadingSpaces(s) ==> IsSpace(s[i])
    ensures forall i :: LeadingSpaces(s) + |Trim(s)| <= i < |s| ==> IsSpace(s[i])
  {
    var t := TrimStart(s);
    TailSpaces(s, t, TrimEnd(t));
  }

  /** Whitespace at the end of a suffix `t` of `s` is whitespace at the end of `s`. */
  lemma TailSpaces(s: string, t: string, r: string)
    requires |t| <= |s| && t == s[|s| - |t|..]
    requires |r| <= |t| && forall i :: |r| <= i < |t| ==> IsSpace(t[i])
    ensures forall i :: |s| - |t| + |r| <= i < |s| ==> IsSpace(s[i])
  {
    forall i | |s| - |t| + |r| <= i < |s|
      ensures IsSpace(s[i])
    {
      assert s[i] == t[i - (|s| - |t|)];
    }
  }

  /** How many whitespace characters `trim` cuts from the front of `s`. */
  function LeadingSpaces(s: string): nat
  {
    |s| - |TrimStart(s)|
  }

  /** Trimming a string that already starts and ends with visible characters
      changes nothing. */
  lemma TrimVisibleEnds(s: string)
    requires s != [] && !IsSpace(s[0]) && !IsSpace(s[|s| - 1])
    ensures Trim(s) == s
  {
  }

  /** Trimming keeps a visible suffix in place. */
  lemma TrimKeepsVisibleSuffix(s: string, e: string)
    requires e != [] && NoSpace(e)
    ensures EndsWith(Trim(s + e), e)
  {
    var u := s + e;
    var t := TrimStart(u);
    assert !IsSpace(u[|s|]);
    assert |u| - |t| <= |s|;
    assert t[|t| - 1] == u[|u| - 1] == e[|e| - 1];
    assert TrimEnd(t) == t;
    assert t[|t| - |e|..] == u[|u| - |e|..] == e;
  }

  /** A slice of a string without doubled whitespace has none either. */
  lemma SliceNoDoubleSpace(s: string, k: nat, n: nat)
    requires k + n <= |s| && NoDoubleSpace(s)
    ensures NoDoubleSpace(s[k..k + n])
  {
    var r := s[k..k + n];
    forall i | 0 < i < |r|
      ensures !(IsSpace(r[i - 1]) && IsSpace(r[i]))
    {
      assert r[i - 1] == s[k + i - 1] && r[i] == s[k + i];
    }
  }

  lemma TrimKeepsNoDoubleSpace(s: string)
    requires NoDoubleSpace(s)
    ensures NoDoubleSpace(Trim(s))
  {
    SliceNoDoubleSpace(s, LeadingSpaces(s), |Trim(s)|);
  }

  // ---------- replace(/\s+/g, " ") ----------

  /** Replaces each maximal run of whitespace by one plain space; `afterSpace`
      says whether the text before `s` already ended inside such a run. */
  function CollapseFrom(s: string, afterSpace: bool): string
  {
    if s == [] then []
    else if IsSpace(s[0]) then (if afterSpace then [] else [' ']) + CollapseFrom(s[1..], true)
    else [s[0]] + CollapseFrom(s[1..], false)
  }

  /** Collapsing never leaves two adjacent whitespace characters, and a run
      that started before `s` swallows the whitespace at its front. */
  lemma {:induction false} CollapseNoDoubleSpace(s: string, afterSpace: bool)
    ensures var r := CollapseFrom(s, afterSpace);
      && NoDoubleSpace(r)
      && (afterSpace && r != [] ==> !IsSpace(r[0]))
      && (s != [] && !IsSpace(s[0]) ==> r != [] && r[0] == s[0])
    decreases |s|
  {
    if s != [] {
      var next := IsSpace(s[0]);
      var rest := CollapseFrom(s[1..], next);
      CollapseNoDoubleSpace(s[1..], next);
      var head: string := if IsSpace(s[0]) then (if afterSpace then [] else [' ']) else [s[0]];
      var r := head + rest;
      assert r == CollapseFrom(s, afterSpace);
      forall i | 0 < i < |r|
        ensures !(IsSpace(r[i - 1]) && IsSpace(r[i]))
      {
        if i > |head| {
          assert r[i - 1] == rest[i - 1 - |head|] && r[i] == rest[i - |head|];
        }
      }
    }
  }

  /** Every whitespace character collapsing emits is a plain space. */
  lemma {:induction false} CollapsePlainSpaces(s: string, afterSpace: bool)
    ensures OnlyPlainSpaces(CollapseFrom(s, afterSpace))
    decreases |s|
  {
    if s != [] {
      var next := IsSpace(s[0]);
      CollapsePlainSpaces(s[1..], next);
      var rest := CollapseFrom(s[1..], next);
      var head: string := if IsSpace(s[0]) then (if afterSpace then [] else [' ']) else [s[0]];
      assert CollapseFrom(s, afterSpace) == head + rest;
    }
  }

  /** Collapsing keeps exactly the visible characters, in order. */
  lemma {:induction false} CollapseKeepsVisible(s: string, afterSpace: bool)
    ensures Visible(CollapseFrom(s, afterSpace)) == Visible(s)
    decreases |s|
  {
    if s != [] {
      var next := IsSpace(s[0]);
      CollapseKeepsVisible(s[1..], next);
      var rest := CollapseFrom(s[1..], next);
      var head: string := if IsSpace(s[0]) then (if afterSpace then [] else [' ']) else [s[0]];
      assert CollapseFrom(s, afterSpace) == head + rest;
      VisibleAppend(head, rest);
      assert s == [s[0]] + s[1..];
      VisibleAppend([s[0]], s[1..]);
      assert Visible(head) == Visible([s[0]]);
    }
  }

  lemma {:induction false} VisibleAppend(a: string, b: string)
    ensures Visible(a + b) == Visible(a) + Visible(b)
    decreases |a|
  {
    if a == [] {
      assert a + b == b;
    } else {
      assert (a + b)[0] == a[0];
      assert (a + b)[1..] == a[1..] + b;
      VisibleAppend(a[1..], b);
    }
  }

  /** JavaScript's `s.replace(/\s+/g, " ")`: afterwards no two whitespace
      characters are adjacent, every whitespace character is a plain space, and
      the visible characters are exactly those of `s`, in order. */
  function CollapseSpaces(s: string): (r: string)
    ensures NoDoubleSpace(r) && OnlyPlainSpaces(r)
    ensures Visible(r) == Visible(s)
    ensures Runs(r) == Runs(s)
  {
    CollapseKeepsRuns(s);
    CollapseNoDoubleSpace(s, false);
    CollapsePlainSpaces(s, false);
    CollapseKeepsVisible(s, false);
    CollapseFrom(s, false)
  }

  /** The token view of a string: each visible character as itself and each
      maximal whitespace run as one `None`. Two strings with the same view
      differ only in how their whitespace runs are spelled. */
  function Runs(s: string): seq<Option<char>>
    decreases |s|
  {
    if s == [] then []
    else if !IsSpace(s[0]) then [Some(s[0])] + Runs(s[1..])
    else [None] + Runs(TrimStart(s[1..]))
  }

  /** One step of the token view, for a string written as its first
      character and the rest. */
  lemma RunsCons(x: char, t: string)
    ensures Runs([x] + t) == if IsSpace(x) then [None] + Runs(TrimStart(t)) else [Some(x)] + Runs(t)
  {
    assert ([x] + t)[0] == x && ([x] + t)[1..] == t;
  }

  /** Two token views that agree agree on their first token and on the rest. */
  lemma ConsEq<T>(x: T, a: seq<T>, y: T, b: seq<T>)
    requires [x] + a == [y] + b
    ensures x == y && a == b
  {
    assert ([x] + a)[0] == x && ([x] + a)[1..] == a;
  }

  /** Inside a whitespace run, collapsing skips the rest of the run. */
  lemma {:induction false} CollapseInsideRun(s: string)
    ensures CollapseFrom(s, true) == CollapseFrom(TrimStart(s), false)
    decreases |s|
  {
    if s != [] && IsSpace(s[0]) {
      CollapseInsideRun(s[1..]);
    }
  }

  /** Collapsing keeps the token view: every visible character stays, and
      every whitespace run stays a run. */
  lemma {:induction false} CollapseKeepsRuns(s: string)
    ensures Runs(CollapseFrom(s, false)) == Runs(s)
    decreases |s|
  {
    if s != [] {
      assert s == [s[0]] + s[1..];
      RunsCons(s[0], s[1..]);
      if !IsSpace(s[0]) {
        CollapseKeepsRuns(s[1..]);
        RunsCons(s[0], CollapseFrom(s[1..], false));
      } else {
        CollapseVisitsRun(s);
      }
    }
  }

  lemma {:induction false} CollapseVisitsRun(s: string)
    requires s != [] && IsSpace(s[0])
    ensures Runs(CollapseFrom(s, false)) == [None] + Runs(TrimStart(s[1..]))
    decreases |s|, 0
  {
    var t := TrimStart(s[1..]);
    CollapseInsideRun(s[1..]);
    CollapseNoDoubleSpace(t, false);
    var ct := CollapseFrom(t, false);
    assert CollapseFrom(s, false) == [' '] + ct;
    RunsCons(' ', ct);
    assert TrimStart(ct) == ct;
    CollapseKeepsRuns(t);
  }

  /** A string with single plain spaces is determined by its token view. */
  lemma {:induction false} RunsDetermine(a: string, b: string)
    requires NoDoubleSpace(a) && OnlyPlainSpaces(a)
    requires NoDoubleSpace(b) && OnlyPlainSpaces(b)
    requires Runs(a) == Runs(b)
    ensures a == b
    decreases |a|
  {
    if a != [] && b != [] {
      assert a == [a[0]] + a[1..] && b == [b[0]] + b[1..];
      RunsCons(a[0], a[1..]);
      RunsCons(b[0], b[1..]);
      SliceNoDoubleSpace(a, 1, |a| - 1);
      SliceNoDoubleSpace(b, 1, |b| - 1);
      assert a[1..][..|a| - 1] == a[1..] && b[1..][..|b| - 1] == b[1..];
      if IsSpace(a[0]) {
        assert a[1..] == [] || !IsSpace(a[1..][0]);
        assert TrimStart(a[1..]) == a[1..];
      }
      if IsSpace(b[0]) {
        assert b[1..] == [] || !IsSpace(b[1..][0]);
        assert TrimStart(b[1..]) == b[1..];
      }
      var ha: Option<char> := if IsSpace(a[0]) then None else Some(a[0]);
      var hb: Option<char> := if IsSpace(b[0]) then None else Some(b[0]);
      ConsEq(ha, Runs(a[1..]), hb, Runs(b[1..]));
      assert a[0] == b[0];
      RunsDetermine(a[1..], b[1..]);
    }
  }

  /** `replace(/\s+/g, " ")` is the one string with single plain spaces and
      the token view of `s`. */
  lemma CollapseSpacesUnique(s: string, r: string)
    requires NoDoubleSpace(r) && OnlyPlainSpaces(r) && Runs(r) == Runs(s)
    ensures r == CollapseSpaces(s)
  {
    RunsDetermine(r, CollapseSpaces(s));
  }

  /** Whether the collapsing scan is inside a whitespace run after reading `s`. */
  function EndsInSpace(s: string, afterSpace: bool): bool
  {
    if s == [] then afterSpace else IsSpace(s[|s| - 1])
  }

  /** Collapsing distributes over concatenation, carrying the run state across. */
  lemma {:induction false} CollapseAppend(a: string, b: string, afterSpace: bool)
    ensures CollapseFrom(a + b, afterSpace) == CollapseFrom(a, afterSpace) + CollapseFrom(b, EndsInSpace(a, afterSpace))
    decreases |a|
  {
    if a == [] {
      assert a + b == b;
    } else {
      var ab := a + b;
      assert ab[0] == a[0];
      assert ab[1..] == a[1..] + b;
      var next := IsSpace(a[0]);
      CollapseAppend(a[1..], b, next);
      assert EndsInSpace(a[1..], next) == EndsInSpace(a, afterSpace);
      var tail := CollapseFrom(a[1..], next);
      var rest := CollapseFrom(b, EndsInSpace(a, afterSpace));
      var head: string := if IsSpace(a[0]) then (if afterSpace then [] else [' ']) else [a[0]];
      assert CollapseFrom(ab, afterSpace) == head + (tail + rest);
      assert CollapseFrom(a, afterSpace) == head + tail;
    }
  }

  /** Text without whitespace passes through unchanged. */
  lemma {:induction false} CollapseNoSpace(s: string, afterSpace: bool)
    requires NoSpace(s)
    ensures CollapseFrom(s, afterSpace) == s
    decreases |s|
  {
    if s != [] {
      CollapseNoSpace(s[1..], false);
    }
  }

  /** Visible text at the end of a string passes through collapsing unchanged. */
  lemma CollapseKeepsVisibleSuffix(front: string, tail: string)
    requires NoSpace(tail)
    ensures CollapseSpaces(front + tail) == CollapseSpaces(front) + tail
  {
    CollapseAppend(front, tail, false);
    CollapseNoSpace(tail, EndsInSpace(front, false));
  }

  /** Visible text at the start of a string, followed by whitespace, comes out
      of collapsing unchanged and followed by one plain space. */
  lemma CollapseKeepsVisiblePrefix(s: string, head: string)
    requires NoSpace(head) && |head| < |s| && s[..|head|] == head && IsSpace(s[|head|])
    ensures StartsWith(CollapseSpaces(s), head + " ")
  {
    var rest := s[|head|..];
    assert s == head + rest;
    CollapseAppend(head, rest, false);
    CollapseNoSpace(head, false);
    assert !EndsInSpace(head, false);
    var c := CollapseSpaces(s);
    assert c == head + ([' '] + CollapseFrom(rest[1..], true));
    assert c[..|head| + 1] == head + " ";
  }

  /** Collapsing twice is the same as collapsing once. */
  lemma {:induction false} CollapseIdempotentFrom(s: string, afterSpace: bool)
    ensures CollapseFrom(CollapseFrom(s, afterSpace), afterSpace) == CollapseFrom(s, afterSpace)
    decreases |s|
  {
    if s != [] {
      var next := IsSpace(s[0]);
      var rest := CollapseFrom(s[1..], next);
      CollapseIdempotentFrom(s[1..], next);
      if IsSpace(s[0]) && !afterSpace {
        assert ([' '] + rest)[0] == ' ';
        assert ([' '] + rest)[1..] == rest;
      } else if !IsSpace(s[0]) {
        assert ([s[0]] + rest)[0] == s[0];
        assert ([s[0]] + rest)[1..] == rest;
      } else {
        assert [] + rest == rest;
      }
    }
  }

  lemma CollapseIdempotent(s: string)
    ensures CollapseSpaces(CollapseSpaces(s)) == CollapseSpaces(s)
  {
    CollapseIdempotentFrom(s, false);
  }

  // ---------- join, case, numbers ----------

  /** `Array.prototype.join(sep)` over strings. */
  function Join(parts: seq<string>, sep: string): (r: string)
    ensures sep != [] ==> (r == [] <==> |parts| == 0 || (|parts| == 1 && parts[0] == []))
    ensures |parts| == 1 ==> r == parts[0]
  {
    if |parts| == 0 then []
    else if |parts| == 1 then parts[0]
    else parts[0] + sep + Join(parts[1..], sep)
  }

  /** Joining one more part appends the separator and that part. */
  lemma {:induction false} JoinAppend(parts: seq<string>, p: string, sep: string)
    requires parts != []
    ensures Join(parts + [p], sep) == Join(parts, sep) + sep + p
    decreases |parts|
  {
    var ps := parts + [p];
    if |parts| == 1 {
      assert ps[1..] == [p];
    } else {
      assert ps[1..] == parts[1..] + [p];
      JoinAppend(parts[1..], p, sep);
    }
  }

  /** `toLowerCase` on the ASCII letters; every other character is kept. */
  function LowerChar(c: char): char
  {
    if 'A' <= c <= 'Z' then (c as int + 32) as char else c
  }

  function ToLowerAscii(s: string): string
  {
    seq(|s|, i requires 0 <= i < |s| => LowerChar(s[i]))
  }

  predicate IsDigit(c: char)
  {
    '0' <= c <= '9'
  }

  predicate IsDigits(s: string)
  {
    forall i :: 0 <= i < |s| ==> IsDigit(s[i])
  }

  function DigitChar(d: nat): (c: char)
    requires d < 10
    ensures IsDigit(c) && c as int - '0' as int == d
  {
    (d + '0' as int) as char
  }

  /** The decimal text JavaScript produces for a non-negative integer below
      10^21 (template interpolation of a number): digits, no leading zero. */
  function Decimal(n: nat): (r: string)
    ensures r != [] && IsDigits(r)
    ensures r[0] == '0' <==> n == 0
  {
    if n < 10 then [DigitChar(n)] else Decimal(n / 10) + [DigitChar(n % 10)]
  }

  /** Reads a string of decimal digits back as a number. */
  function DigitsValue(s: string): nat
    requires IsDigits(s)
  {
    if s == [] then 0 else 10 * DigitsValue(s[..|s| - 1]) + (s[|s| - 1] as int - '0' as int)
  }

  lemma {:induction false} DecimalRoundTrip(n: nat)
    ensures DigitsValue(Decimal(n)) == n
  {
    if n >= 10 {
      var r := Decimal(n);
      assert r[..|r| - 1] == Decimal(n / 10);
      DecimalRoundTrip(n / 10);
    }
  }

  /** Different numbers have different decimal texts. */
  lemma DecimalInjective(m: nat, n: nat)
    ensures Decimal(m) == Decimal(n) ==> m == n
  {
    DecimalRoundTrip(m);
    DecimalRoundTrip(n);
  }

  // ---------- replace(/c/g, by) ----------

  /** `s.replace(/c/g, by)` for a single character `c`. */
  function ReplaceChar(s: string, c: char, rep: string): (r: string)
    ensures c !in rep ==> c !in r
    ensures forall x :: x in r ==> x in s || x in rep
  {
    if s == [] then [] else (if s[0] == c then rep else [s[0]]) + ReplaceChar(s[1..], c, rep)
  }

  lemma {:induction false} ReplaceCharAppend(a: string, b: string, c: char, rep: string)
    ensures ReplaceChar(a + b, c, rep) == ReplaceChar(a, c, rep) + ReplaceChar(b, c, rep)
    decreases |a|
  {
    if a != [] {
      assert (a + b)[0] == a[0];
      assert (a + b)[1..] == a[1..] + b;
      ReplaceCharAppend(a[1..], b, c, rep);
    } else {
      assert a + b == b;
    }
  }

  lemma ReplaceCharSingle(x: char, c: char, rep: string)
    ensures ReplaceChar([x], c, rep) == if x == c then rep else [x]
  {
    assert [x][1..] == [];
  }

  lemma {:induction false} ReplaceCharAbsent(s: string, c: char, rep: string)
    requires c !in s
    ensures ReplaceChar(s, c, rep) == s
    decreases |s|
  {
    if s != [] {
      assert s[0] != c;
      ReplaceCharAbsent(s[1..], c, rep);
    }
  }
}
