/**
 * Character and string helpers with the meaning the hotel system's Java code
 * gives them: `String.trim`, `toLowerCase`, `indexOf`, `split("\t", 2)` and the
 * line separators recognised by `Scanner.nextLine`.
 */
module Text {

  /** `String.trim` removes every leading and trailing character up to U+0020. */
  predicate IsSpace(c: char) {
    c <= ' '
  }

  /** The characters `Scanner.nextLine` treats as line separators. */
  predicate IsBreak(c: char) {
    c == '\n' || c == '\r' || c == '\U{2028}' || c == '\U{2029}' || c == '\U{0085}'
  }

  predicate NoBreaks(s: string) {
    forall i :: 0 <= i < |s| ==> !IsBreak(s[i])
  }

  predicate NoTabs(s: string) {
    forall i :: 0 <= i < |s| ==> s[i] != '\t'
  }

  /** Visible ASCII only: no space, control character or line separator. */
  predicate Printable(s: string) {
    forall i :: 0 <= i < |s| ==> '!' <= s[i] <= '~'
  }

  lemma PrintableConcat(a: string, b: string)
    requires Printable(a) && Printable(b)
    ensures Printable(a + b)
  {
    assert forall i :: 0 <= i < |a| ==> (a + b)[i] == a[i];
    assert forall i :: |a| <= i < |a + b| ==> (a + b)[i] == b[i - |a|];
  }

  /** The UTF-16 code units of one character: a character beyond U+FFFF takes a surrogate pair. */
  function Utf16Units(c: char): nat {
    if c as int >= 0x1_0000 then 2 else 1
  }

  /** `String.length`: the number of UTF-16 code units of the text, not of its characters. */
  function Utf16Length(s: string): (n: nat)
    ensures |s| <= n <= 2 * |s|
    decreases |s|
  {
    if |s| == 0 then 0 else Utf16Units(s[0]) + Utf16Length(s[1..])
  }

  /** The lengths agree exactly when every character lies in the Basic Multilingual Plane. */
  lemma {:induction false} Utf16LengthBmp(s: string)
    ensures Utf16Length(s) == |s| <==> forall i :: 0 <= i < |s| ==> s[i] as int < 0x1_0000
    decreases |s|
  {
    if |s| > 0 {
      Utf16LengthBmp(s[1..]);
      assert forall i :: 1 <= i < |s| ==> s[i] == s[1..][i - 1];
    }
  }

  /** The code units of two texts one after the other add up. */
  lemma {:induction false} Utf16LengthAppend(a: string, b: string)
    ensures Utf16Length(a + b) == Utf16Length(a) + Utf16Length(b)
    decreases |a|
  {
    if |a| == 0 {
      assert a + b == b;
    } else {
      assert (a + b)[1..] == a[1..] + b;
      Utf16LengthAppend(a[1..], b);
    }
  }

  /** Lower-casing of the ASCII letters; other characters are kept. */
  function LowerChar(c: char): (r: char)
    ensures 'A' <= c <= 'Z' ==> r as int == c as int + 32
    ensures !('A' <= c <= 'Z') ==> r == c
  {
    if 'A' <= c <= 'Z' then (c as int + 32) as char else c
  }

  function Lower(s: string): (r: string)
    ensures |r| == |s|
    ensures forall i :: 0 <= i < |s| ==> r[i] == LowerChar(s[i])
  {
    seq(|s|, i requires 0 <= i < |s| => LowerChar(s[i]))
  }

  /** No lower-case ASCII letter occurs in the text. */
  predicate NoLowercase(s: string) {
    forall i :: 0 <= i < |s| ==> !('a' <= s[i] <= 'z')
  }

  /** Texts without lower-case letters that agree after lower-casing are equal. */
  lemma LowerInjective(a: string, b: string)
    requires NoLowercase(a) && NoLowercase(b)
    requires Lower(a) == Lower(b)
    ensures a == b
  {
    forall i | 0 <= i < |a|
      ensures a[i] == b[i]
    {
      assert LowerChar(a[i]) == LowerChar(b[i]);
    }
  }

  /** Case-insensitive equality as the query engine uses it. */
  predicate SameIgnoringCase(a: string, b: string) {
    Lower(a) == Lower(b)
  }

  predicate IsPrefix(t: string, s: string) {
    |t| <= |s| && s[..|t|] == t
  }

  /** `s.indexOf(t) != -1`, scanning from the left. */
  predicate Contains(s: string, t: string)
    decreases |s|
  {
    IsPrefix(t, s) || (|s| > 0 && Contains(s[1..], t))
  }

  /** `t` occurs in `s` starting at offset `i`. */
  predicate OccursAt(s: string, t: string, i: int) {
    0 <= i <= |s| - |t| && s[i..i + |t|] == t
  }

  /** Contains holds exactly when `t` occurs at some offset of `s`. */
  lemma {:induction false} ContainsIff(s: string, t: string)
    ensures Contains(s, t) <==> exists i :: OccursAt(s, t, i)
    decreases |s|
  {
    if IsPrefix(t, s) {
      assert OccursAt(s, t, 0);
    } else if |s| == 0 {
      assert IsPrefix("", s);
    } else {
      ContainsIff(s[1..], t);
      if exists i :: OccursAt(s, t, i) {
        var i :| OccursAt(s, t, i);
        if i > 0 {
          assert s[1..][i - 1..i - 1 + |t|] == s[i..i + |t|];
          assert OccursAt(s[1..], t, i - 1);
        }
      }
      if exists j :: OccursAt(s[1..], t, j) {
        var j :| OccursAt(s[1..], t, j);
        assert s[1..][j..j + |t|] == s[j + 1..j + 1 + |t|];
        assert OccursAt(s, t, j + 1);
      }
    }
  }

  /** The empty text is contained in every text. */
  lemma ContainsEmpty(s: string)
    ensures Contains(s, "")
  {
    assert IsPrefix("", s);
  }

  /** A contained text is no longer than the text, and each of its characters occurs there. */
  lemma ContainedChars(s: string, t: string)
    requires Contains(s, t)
    ensures |t| <= |s|
    ensures forall c :: c in t ==> c in s
  {
    ContainsIff(s, t);
    var i :| OccursAt(s, t, i);
    forall c | c in t ensures c in s {
      var k :| 0 <= k < |t| && t[k] == c;
      assert s[i..i + |t|][k] == s[i + k];
    }
  }

  /** Every text contains itself. */
  lemma ContainsSelf(s: string)
    ensures Contains(s, s)
  {
    assert IsPrefix(s, s);
  }

  function TrimStart(s: string): (r: string)
    ensures |r| <= |s|
    ensures |r| > 0 ==> !IsSpace(r[0])
  {
    if |s| > 0 && IsSpace(s[0]) then TrimStart(s[1..]) else s
  }

  function TrimEnd(s: string): (r: string)
    ensures |r| <= |s|
    ensures |r| > 0 ==> !IsSpace(r[|r| - 1])
  {
    if |s| > 0 && IsSpace(s[|s| - 1]) then TrimEnd(s[..|s| - 1]) else s
  }

  /** `String.trim`: strip both ends. */
  function Trim(s: string): string {
    TrimStart(TrimEnd(s))
  }

  /** TrimEnd keeps a prefix of its argument, and only white space goes. */
  lemma {:induction false} TrimEndPrefix(s: string)
    ensures TrimEnd(s) == s[..|TrimEnd(s)|]
    ensures forall i :: |TrimEnd(s)| <= i < |s| ==> IsSpace(s[i])
    decreases |s|
  {
    if |s| > 0 && IsSpace(s[|s| - 1]) {
      TrimEndPrefix(s[..|s| - 1]);
    }
  }

  /** Trimming text whose ends are already visible leaves it alone. */
  lemma TrimVisible(s: string)
    requires |s| > 0 && !IsSpace(s[0]) && !IsSpace(s[|s| - 1])
    ensures Trim(s) == s
  {
  }

  /** Trailing white space added to a text disappears under TrimEnd. */
  lemma {:induction false} TrimEndAppendSpace(s: string, w: string)
    requires forall i :: 0 <= i < |w| ==> IsSpace(w[i])
    ensures TrimEnd(s + w) == TrimEnd(s)
    decreases |w|
  {
    if |w| > 0 {
      var sw := s + w;
      assert sw[..|sw| - 1] == s + w[..|w| - 1];
      TrimEndAppendSpace(s, w[..|w| - 1]);
    } else {
      assert s + w == s;
    }
  }

  /** TrimEnd only looks at the last visible character. */
  lemma {:induction false} TrimEndKeepsPrefix(a: string, b: string)
    requires |b| > 0 && !IsSpace(b[0])
    ensures TrimEnd(a + b) == a + TrimEnd(b)
    decreases |b|
  {
    var ab := a + b;
    if IsSpace(b[|b| - 1]) {
      assert |b| > 1;
      assert ab[..|ab| - 1] == a + b[..|b| - 1];
      TrimEndKeepsPrefix(a, b[..|b| - 1]);
    }
  }

  /** Position of the first `c` in `s`, or |s| when there is none. */
  function IndexOf(s: string, c: char): (k: nat)
    ensures k <= |s|
    ensures k < |s| ==> s[k] == c
  {
    if |s| == 0 then 0
    else if s[0] == c then 0
    else 1 + IndexOf(s[1..], c)
  }

  /** The first `c` after a `c`-free prefix is found right after that prefix. */
  lemma {:induction false} IndexOfAfter(front: string, c: char, back: string)
    requires forall i :: 0 <= i < |front| ==> front[i] != c
    ensures IndexOf(front + [c] + back, c) == |front|
    decreases |front|
  {
    var s := front + [c] + back;
    if |front| > 0 {
      assert s[1..] == front[1..] + [c] + back;
      IndexOfAfter(front[1..], c, back);
    }
  }

  /** A `c`-free text has no `c` to find. */
  lemma {:induction false} IndexOfNone(s: string, c: char)
    requires forall i :: 0 <= i < |s| ==> s[i] != c
    ensures IndexOf(s, c) == |s|
    decreases |s|
  {
    if |s| > 0 {
      IndexOfNone(s[1..], c);
    }
  }

  /**
   * `s.split("\t", 2)` read back as key and value: the text before the first tab
   * and the text after it, or the whole text and "" when there is no tab.
   */
  function SplitAtTab(s: string): (string, string) {
    var k := IndexOf(s, '\t');
    if k == |s| then (s, "") else (s[..k], s[k + 1..])
  }

  /** Splitting `key TAB value` gives the pair back when the key has no tab. */
  lemma SplitAtTabOfPair(key: string, value: string)
    requires NoTabs(key)
    ensures SplitAtTab(key + "\t" + value) == (key, value)
  {
    var s := key + "\t" + value;
    assert s == key + ['\t'] + value;
    IndexOfAfter(key, '\t', value);
    assert s[..|key|] == key;
    assert s[|key| + 1..] == value;
  }

  /** A tab-free text splits into itself and the empty value. */
  lemma SplitAtTabNoTab(key: string)
    requires NoTabs(key)
    ensures SplitAtTab(key) == (key, "")
  {
    IndexOfNone(key, '\t');
  }
}
