/** The few Python string operations the two apps rely on: `strip()`, `in`,
    `lower()`, `"sep".join(...)` and `replace('\\n', '\n\n')`. */
module Text {

  /** Python's `str.isspace()` for a single character: the ASCII controls
      TAB..CR and FS..US, the space, NEL, NBSP and the Unicode space separators. */
  predicate IsSpace(c: char)
  {
    || c == ' '
    || ('\t' <= c <= '\r')
    || ('\U{1c}' <= c <= '\U{1f}')
    || c == '\U{85}'
    || c == '\U{a0}'
    || c == '\U{1680}'
    || ('\U{2000}' <= c <= '\U{200a}')
    || c == '\U{2028}'
    || c == '\U{2029}'
    || c == '\U{202f}'
    || c == '\U{205f}'
    || c == '\U{3000}'
  }

  /** Every character is whitespace (the string is falsy after `strip()`). */
  predicate IsBlank(s: string)
  {
    forall i :: 0 <= i < |s| ==> IsSpace(s[i])
  }

  /** Neither end of the string is whitespace. */
  predicate Trimmed(s: string)
  {
    s == [] || (!IsSpace(s[0]) && !IsSpace(s[|s| - 1]))
  }

  /** Length of the whitespace run at the front of `s`. */
  function LeadingSpaces(s: string): (n: nat)
    ensures n <= |s|
    ensures forall i :: 0 <= i < n ==> IsSpace(s[i])
    ensures n < |s| ==> !IsSpace(s[n])
  {
    if |s| == 0 || !IsSpace(s[0]) then 0 else 1 + LeadingSpaces(s[1..])
  }

  /** Length of the whitespace run at the back of `s`. */
  function TrailingSpaces(s: string): (n: nat)
    ensures n <= |s|
    ensures forall i :: |s| - n <= i < |s| ==> IsSpace(s[i])
    ensures n < |s| ==> !IsSpace(s[|s| - n - 1])
  {
    if |s| == 0 || !IsSpace(s[|s| - 1]) then 0 else 1 + TrailingSpaces(s[..|s| - 1])
  }

  /** Python's `s.strip()`: `s` without its leading and trailing whitespace. */
  function Strip(s: string): (r: string)
    ensures Trimmed(r)
    ensures r == [] <==> IsBlank(s)
    ensures LeadingSpaces(s) + |r| <= |s|
    ensures r == s[LeadingSpaces(s)..LeadingSpaces(s) + |r|]
    ensures IsBlank(s[..LeadingSpaces(s)]) && IsBlank(s[LeadingSpaces(s) + |r|..])
  {
    var t := s[LeadingSpaces(s)..];
    var r := t[..|t| - TrailingSpaces(t)];
    assert r != [] ==> r[|r| - 1] == t[|t| - TrailingSpaces(t) - 1];
    assert IsBlank(s) ==> LeadingSpaces(s) == |s|;
    r
  }

  /** Whatever blank margins surround a trimmed core, `strip()` returns exactly that core. */
  lemma StripUnique(s: string, pre: string, core: string, post: string)
    requires s == pre + core + post
    requires IsBlank(pre) && IsBlank(post) && Trimmed(core)
    ensures Strip(s) == core
  {
    var r := Strip(s);
    var lead := LeadingSpaces(s);
    if core == [] {
      assert IsBlank(s) by {
        forall i | 0 <= i < |s| ensures IsSpace(s[i]) {
          if i < |pre| { assert s[i] == pre[i]; } else { assert s[i] == post[i - |pre|]; }
        }
      }
    } else {
      assert s[|pre|] == core[0];
      assert s[|pre| + |core| - 1] == core[|core| - 1];
      assert forall i :: 0 <= i < |pre| ==> s[i] == pre[i];
      assert forall i :: |pre| + |core| <= i < |s| ==> s[i] == post[i - |pre| - |core|];
      assert !IsSpace(s[|pre|]);
      assert lead == |pre|;
      assert !IsBlank(s);
      var e := lead + |r|;
      assert forall k :: e <= k < |s| ==> IsSpace(s[k]) by {
        forall k | e <= k < |s| ensures IsSpace(s[k]) {
          assert s[k] == s[e..][k - e];
        }
      }
      assert forall k :: |pre| + |core| <= k < |s| ==> IsSpace(s[k]);
      assert r[|r| - 1] == s[e - 1];
      assert !IsSpace(s[|pre| + |core| - 1]);
      assert e == |pre| + |core|;
      assert r == core;
    }
  }

  /** `strip()` is idempotent. */
  lemma StripIdempotent(s: string)
    ensures Strip(Strip(s)) == Strip(s)
  {
    StripUnique(Strip(s), [], Strip(s), []);
  }

  /** Extra whitespace on either side never changes what `strip()` returns. */
  lemma StripIgnoresPadding(left: string, s: string, right: string)
    requires IsBlank(left) && IsBlank(right)
    ensures Strip(left + s + right) == Strip(s)
  {
    var lead := LeadingSpaces(s);
    var core := Strip(s);
    var pre := s[..lead];
    var post := s[lead + |core|..];
    assert s == pre + core + post;
    RegroupMargins(left, pre, core, post, right);
    BlankConcat(left, pre);
    BlankConcat(post, right);
    StripUnique(left + s + right, left + pre, core, post + right);
  }

  /** Margins regrouped around a core. */
  lemma RegroupMargins(left: string, pre: string, core: string, post: string, right: string)
    ensures left + (pre + core + post) + right == (left + pre) + core + (post + right)
  {
  }

  /** Two blank strings laid end to end are blank. */
  lemma BlankConcat(x: string, y: string)
    requires IsBlank(x) && IsBlank(y)
    ensures IsBlank(x + y)
  {
    forall i | 0 <= i < |x + y| ensures IsSpace((x + y)[i]) {
      if i >= |x| { assert (x + y)[i] == y[i - |x|]; }
    }
  }

  /** `s.startswith(p)`. */
  predicate StartsWith(s: string, p: string)
  {
    |p| <= |s| && s[..|p|] == p
  }

  /** Python's `p in s`: `p` occurs somewhere in `s` as a contiguous substring. */
  predicate Contains(s: string, p: string)
    decreases |s|
  {
    StartsWith(s, p) || (|s| > 0 && Contains(s[1..], p))
  }

  /** An occurrence at any index makes `p in s` true. */
  lemma {:induction false} ContainsAt(s: string, p: string, i: nat)
    requires i + |p| <= |s| && s[i..i + |p|] == p
    ensures Contains(s, p)
    decreases i
  {
    if i > 0 {
      assert s[1..][i - 1..i - 1 + |p|] == s[i..i + |p|];
      ContainsAt(s[1..], p, i - 1);
    }
  }

  /** Conversely, `p in s` means some index holds an occurrence. */
  lemma {:induction false} ContainsWitness(s: string, p: string) returns (i: nat)
    requires Contains(s, p)
    ensures i + |p| <= |s| && s[i..i + |p|] == p
    decreases |s|
  {
    if StartsWith(s, p) {
      i := 0;
    } else {
      var j := ContainsWitness(s[1..], p);
      assert s[1..][j..j + |p|] == s[j + 1..j + 1 + |p|];
      i := j + 1;
    }
  }

  /** Lower-casing of one character; only the ASCII capitals A..Z are folded. */
  function LowerChar(c: char): char
  {
    if 'A' <= c <= 'Z' then (c as int + 32) as char else c
  }

  /** `s.lower()`, restricted to ASCII letters (see README). */
  function Lower(s: string): (r: string)
    ensures |r| == |s|
    ensures forall i :: 0 <= i < |s| ==> r[i] == LowerChar(s[i])
  {
    seq(|s|, i requires 0 <= i < |s| => LowerChar(s[i]))
  }

  /** `piece * k`: `k` copies of `piece`. */
  function Repeat(piece: string, k: nat): string
  {
    if k == 0 then "" else Repeat(piece, k - 1) + piece
  }

  /** Concatenation regrouped. */
  lemma Regroup3(x: string, y: string, z: string)
    ensures x + y + z == x + (y + z)
  {
  }

  /** `sep.join(parts)`. */
  function Join(sep: string, parts: seq<string>): string
  {
    if |parts| == 0 then ""
    else if |parts| == 1 then parts[0]
    else parts[0] + sep + Join(sep, parts[1..])
  }

  /** Joining one more part at the end adds exactly one separator and that part. */
  lemma {:induction false} JoinAppend(sep: string, parts: seq<string>, last: string)
    requires |parts| > 0
    ensures Join(sep, parts + [last]) == Join(sep, parts) + sep + last
  {
    if |parts| == 1 {
      assert (parts + [last])[1..] == [last];
    } else {
      assert (parts + [last])[1..] == parts[1..] + [last];
      JoinAppend(sep, parts[1..], last);
    }
  }

  /** No backslash is immediately followed by the letter `n`. */
  predicate NoEscapedNewline(s: string)
  {
    forall i :: 0 <= i < |s| - 1 ==> !(s[i] == '\\' && s[i + 1] == 'n')
  }

  /** `s.replace('\\n', '\n\n')`: every two-character sequence backslash, `n`
      (scanned left to right, without overlap) becomes two newline characters. */
  function ExpandEscapedNewlines(s: string): (r: string)
    ensures |r| == |s|
    ensures forall i :: 0 <= i < |s| ==> r[i] == s[i] || r[i] == '\n'
    ensures forall i :: 0 <= i < |s| && s[i] != '\\' && s[i] != 'n' ==> r[i] == s[i]
    ensures NoEscapedNewline(r)
  {
    if |s| < 2 then s
    else if s[0] == '\\' && s[1] == 'n' then "\n\n" + ExpandEscapedNewlines(s[2..])
    else [s[0]] + ExpandEscapedNewlines(s[1..])
  }

  /** A string without an escaped newline is left as it is. */
  lemma {:induction false} ExpandWithoutEscapesIsIdentity(s: string)
    requires NoEscapedNewline(s)
    ensures ExpandEscapedNewlines(s) == s
  {
    if |s| >= 2 {
      assert !(s[0] == '\\' && s[1] == 'n');
      assert NoEscapedNewline(s[1..]) by {
        forall i | 0 <= i < |s[1..]| - 1 ensures !(s[1..][i] == '\\' && s[1..][i + 1] == 'n') {
          assert s[1..][i] == s[i + 1] && s[1..][i + 1] == s[i + 2];
        }
      }
      ExpandWithoutEscapesIsIdentity(s[1..]);
      assert s == [s[0]] + s[1..];
    }
  }

  /** Every backslash-n, wherever it stands, becomes exactly two newlines and
      the text on either side of it is expanded on its own. Together with
      `ExpandWithoutEscapesIsIdentity` this fixes the result for every string. */
  lemma {:induction false} ExpandSplitsAtEscape(a: string, b: string)
    ensures ExpandEscapedNewlines(a + "\\n" + b)
            == ExpandEscapedNewlines(a) + "\n\n" + ExpandEscapedNewlines(b)
    decreases |a|, 1
  {
    if |a| == 0 {
      assert a + "\\n" + b == "\\n" + b;
      ExpandAtEscape(b);
    } else if |a| >= 2 && a[0] == '\\' && a[1] == 'n' {
      SplitAfterLeadingEscape(a, b);
    } else {
      SplitAfterLeadingChar(a, b);
    }
  }

  /** `ExpandSplitsAtEscape` when `a` itself starts with a backslash-n. */
  lemma {:induction false} SplitAfterLeadingEscape(a: string, b: string)
    requires |a| >= 2 && a[0] == '\\' && a[1] == 'n'
    ensures ExpandEscapedNewlines(a + "\\n" + b)
            == ExpandEscapedNewlines(a) + "\n\n" + ExpandEscapedNewlines(b)
    decreases |a|, 0
  {
    var rest := a[2..];
    assert a == "\\n" + rest;
    assert a + "\\n" + b == "\\n" + (rest + "\\n" + b);
    ExpandAtEscape(rest);
    ExpandAtEscape(rest + "\\n" + b);
    ExpandSplitsAtEscape(rest, b);
    Regroup("\n\n", ExpandEscapedNewlines(rest), "\n\n", ExpandEscapedNewlines(b));
  }

  /** Concatenation regrouped. */
  lemma Regroup(c: string, x: string, y: string, z: string)
    ensures c + (x + y + z) == (c + x) + y + z
  {
  }

  /** `ExpandSplitsAtEscape` when the first character of `a` does not start a backslash-n. */
  lemma {:induction false} SplitAfterLeadingChar(a: string, b: string)
    requires |a| >= 1 && !(|a| >= 2 && a[0] == '\\' && a[1] == 'n')
    ensures ExpandEscapedNewlines(a + "\\n" + b)
            == ExpandEscapedNewlines(a) + "\n\n" + ExpandEscapedNewlines(b)
    decreases |a|, 0
  {
    var rest := a[1..];
    var t := rest + "\\n" + b;
    assert a == [a[0]] + rest;
    assert a + "\\n" + b == [a[0]] + t;
    assert |rest| > 0 ==> t[0] == rest[0];
    ExpandAtPlainChar(a[0], rest);
    ExpandAtPlainChar(a[0], t);
    ExpandSplitsAtEscape(rest, b);
    Regroup([a[0]], ExpandEscapedNewlines(rest), "\n\n", ExpandEscapedNewlines(b));
  }

  /** One expansion step at a leading backslash-n. */
  lemma ExpandAtEscape(t: string)
    ensures ExpandEscapedNewlines("\\n" + t) == "\n\n" + ExpandEscapedNewlines(t)
  {
    assert ("\\n" + t)[2..] == t;
  }

  /** One expansion step at a leading character that does not start a backslash-n. */
  lemma ExpandAtPlainChar(c: char, t: string)
    requires !(c == '\\' && |t| > 0 && t[0] == 'n')
    ensures ExpandEscapedNewlines([c] + t) == [c] + ExpandEscapedNewlines(t)
  {
    assert ([c] + t)[1..] == t;
  }

  /** Expanding twice is the same as expanding once. */
  lemma ExpandIdempotent(s: string)
    ensures ExpandEscapedNewlines(ExpandEscapedNewlines(s)) == ExpandEscapedNewlines(s)
  {
    ExpandWithoutEscapesIsIdentity(ExpandEscapedNewlines(s));
  }
}
