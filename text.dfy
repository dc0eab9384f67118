/** The few Python string built-ins the program relies on: `str.strip()`, `str.lower()`,
    `' '.join(words)` and the substring test `key in text`. */
module Text {

  /** Python's `str.isspace()`: the characters `str.strip()` removes. */
  predicate IsSpace(c: char)
  {
    || '\t' <= c <= '\r'
    || '\U{1C}' <= c <= ' '
    || c == '\U{85}' || c == '\U{A0}' || c == '\U{1680}'
    || '\U{2000}' <= c <= '\U{200A}'
    || c == '\U{2028}' || c == '\U{2029}' || c == '\U{202F}' || c == '\U{205F}' || c == '\U{3000}'
  }

  /** How many whitespace characters `s` starts with. */
  function LeadingSpaces(s: string): (n: nat)
    ensures n <= |s|
    ensures forall k :: 0 <= k < n ==> IsSpace(s[k])
    ensures n < |s| ==> !IsSpace(s[n])
  {
    if s != [] && IsSpace(s[0]) then 1 + LeadingSpaces(s[1..]) else 0
  }

  /** How many whitespace characters `s` ends with. */
  function TrailingSpaces(s: string): (n: nat)
    ensures n <= |s|
    ensures forall k :: |s| - n <= k < |s| ==> IsSpace(s[k])
    ensures n < |s| ==> !IsSpace(s[|s| - n - 1])
  {
    if s != [] && IsSpace(s[|s| - 1]) then 1 + TrailingSpaces(s[..|s| - 1]) else 0
  }

  /** `r` sits at position `i` of `s`, and everything of `s` before and after it is whitespace. */
  predicate TrimmedAt(s: string, r: string, i: nat)
  {
    && OccursAt(s, r, i)
    && (forall k :: 0 <= k < i ==> IsSpace(s[k]))
    && (forall k :: i + |r| <= k < |s| ==> IsSpace(s[k]))
  }

  /** Python's `s.strip()`: `s` with its leading and trailing whitespace removed. The result sits in
      `s` with only whitespace around it, neither starts nor ends with whitespace, and is empty exactly
      when `s` is all whitespace. */
  function Strip(s: string): (r: string)
    ensures exists i: nat :: TrimmedAt(s, r, i)
    ensures r == "" || (!IsSpace(r[0]) && !IsSpace(r[|r| - 1]))
    ensures r == "" <==> forall k :: 0 <= k < |s| ==> IsSpace(s[k])
    ensures |r| <= |s| && Contains(s, r)
  {
    var n := LeadingSpaces(s);
    if n == |s| then
      assert TrimmedAt(s, "", 0);
      ""
    else
      var m := TrailingSpaces(s);
      assert m < |s| - n by {
        assert !IsSpace(s[n]);
      }
      assert TrimmedAt(s, s[n..|s| - m], n);
      s[n..|s| - m]
  }

  /** Python's `str.lower()` on one character. Outside ASCII only two characters lower-case to
      something that contains an ASCII letter: U+0130 (to "i" followed by U+0307) and the Kelvin sign
      U+212A (to "k"). Every other character is kept: its real lower-case form has no ASCII in it, so
      it cannot change a comparison with an ASCII word or an ASCII keyword match. */
  function LowerChar(c: char): (r: string)
    ensures |r| >= 1
    ensures forall k :: 0 <= k < |r| ==> !('A' <= r[k] <= 'Z')
    ensures 'A' <= c <= 'Z' ==> r == [(c as int + 32) as char]
    ensures !('A' <= c <= 'Z') && c != '\U{130}' && c != '\U{212A}' ==> r == [c]
  {
    if 'A' <= c <= 'Z' then [(c as int - 'A' as int + 'a' as int) as char]
    else if c == '\U{130}' then "i\U{307}"
    else if c == '\U{212A}' then "k"
    else [c]
  }

  /** Python's `s.lower()`, character by character. */
  function Lower(s: string): (r: string)
    ensures forall k :: 0 <= k < |r| ==> !('A' <= r[k] <= 'Z')
    ensures |r| >= |s|
  {
    if s == [] then [] else LowerChar(s[0]) + Lower(s[1..])
  }

  /** Lower-casing distributes over concatenation. */
  lemma {:induction false} LowerAppend(a: string, b: string)
    ensures Lower(a + b) == Lower(a) + Lower(b)
  {
    if a == [] {
      assert a + b == b;
    } else {
      assert (a + b)[0] == a[0];
      assert (a + b)[1..] == a[1..] + b;
      LowerAppend(a[1..], b);
      calc {
        Lower(a + b);
        LowerChar(a[0]) + Lower(a[1..] + b);
        LowerChar(a[0]) + (Lower(a[1..]) + Lower(b));
        (LowerChar(a[0]) + Lower(a[1..])) + Lower(b);
      }
    }
  }

  /** Lower-casing twice is lower-casing once. */
  lemma {:induction false} LowerIdempotent(s: string)
    ensures Lower(Lower(s)) == Lower(s)
  {
    if s != [] {
      var h := LowerChar(s[0]);
      LowerIdempotent(s[1..]);
      LowerAppend(h, Lower(s[1..]));
      assert Lower(h) == h by {
        if 'A' <= s[0] <= 'Z' || s[0] == '\U{212A}' {
          assert Lower(h[1..]) == [];
        } else if s[0] == '\U{130}' {
          assert h[1..][1..] == [];
        } else {
          assert Lower(h[1..]) == [];
        }
      }
    }
  }

  /** `a` and `b` are the same character, or an ASCII capital and its lower-case letter. */
  predicate SameUpToCase(a: char, b: char)
  {
    || a == b
    || ('A' <= a <= 'Z' && b as int == a as int + 32)
    || ('A' <= b <= 'Z' && a as int == b as int + 32)
  }

  /** Strings that differ only in the case of ASCII letters have the same lower-case form. */
  lemma {:induction false} LowerIgnoresCase(s: string, t: string)
    requires |s| == |t| && forall k :: 0 <= k < |s| ==> SameUpToCase(s[k], t[k])
    ensures Lower(s) == Lower(t)
  {
    if s != [] {
      assert forall k :: 0 <= k < |s[1..]| ==> s[1..][k] == s[k + 1] && t[1..][k] == t[k + 1];
      LowerIgnoresCase(s[1..], t[1..]);
    }
  }

  /** A word already in lower-case ASCII letters is its own lower-case form. */
  lemma {:induction false} LowerKeeps(s: string)
    requires forall k :: 0 <= k < |s| ==> 'a' <= s[k] <= 'z'
    ensures Lower(s) == s
  {
    if s != [] {
      LowerKeeps(s[1..]);
      assert s == [s[0]] + s[1..];
    }
  }

  /** Python's `' '.join(words)`. */
  function Join(words: seq<string>): (r: string)
    ensures words == [] ==> r == ""
    ensures words != [] ==> words[0] <= r
    ensures |words| == 1 ==> r == words[0]
  {
    if words == [] then ""
    else if |words| == 1 then words[0]
    else words[0] + " " + Join(words[1..])
  }

  /** A character other than the space that no word holds is not in their join either. */
  lemma {:induction false} JoinKeeps(words: seq<string>, c: char)
    requires c != ' ' && forall w :: w in words ==> c !in w
    ensures c !in Join(words)
  {
    if |words| > 1 {
      assert words[0] in words;
      assert forall w :: w in words[1..] ==> w in words;
      JoinKeeps(words[1..], c);
    } else if |words| == 1 {
      assert words[0] in words;
    }
  }

  /** Joining two non-empty runs of words puts a single space between them. */
  lemma {:induction false} JoinAppend(a: seq<string>, b: seq<string>)
    requires a != [] && b != []
    ensures Join(a + b) == Join(a) + " " + Join(b)
  {
    if |a| == 1 {
      assert (a + b)[1..] == b;
    } else {
      assert (a + b)[0] == a[0];
      assert (a + b)[1..] == a[1..] + b;
      JoinAppend(a[1..], b);
    }
  }

  /** `key` occurs in `text` starting at position `i`. */
  predicate OccursAt(text: string, key: string, i: nat)
  {
    i + |key| <= |text| && text[i..i + |key|] == key
  }

  /** Python's substring test `key in text`. */
  function Contains(text: string, key: string): (r: bool)
    ensures r <==> exists i: nat :: OccursAt(text, key, i)
  {
    if key <= text then
      assert OccursAt(text, key, 0);
      true
    else if text == [] then
      false
    else
      var r := Contains(text[1..], key);
      OccursShift(text, key);
      r
  }

  /** Past position 0, an occurrence in `text` is an occurrence in `text[1..]`, one place earlier. */
  lemma {:induction false} OccursShift(text: string, key: string)
    requires text != [] && !(key <= text)
    ensures (exists i: nat :: OccursAt(text, key, i)) <==> (exists i: nat :: OccursAt(text[1..], key, i))
  {
    forall i: nat | OccursAt(text[1..], key, i) ensures OccursAt(text, key, i + 1) {
      assert text[1..][i..i + |key|] == text[i + 1..i + 1 + |key|];
    }
    forall i: nat | OccursAt(text, key, i) ensures i > 0 && OccursAt(text[1..], key, i - 1) {
      assert text[1..][i - 1..i - 1 + |key|] == text[i..i + |key|];
    }
  }

  /** A text that contains `outer` contains every slice of it. */
  lemma {:induction false} ContainsSlice(text: string, outer: string, lo: nat, hi: nat)
    requires lo <= hi <= |outer|
    requires Contains(text, outer)
    ensures Contains(text, outer[lo..hi])
  {
    var i: nat :| OccursAt(text, outer, i);
    forall k | 0 <= k < hi - lo ensures text[i + lo..i + hi][k] == outer[lo..hi][k] {
      assert text[i..i + |outer|][lo + k] == outer[lo + k];
    }
    assert text[i + lo..i + hi] == outer[lo..hi];
    assert OccursAt(text, outer[lo..hi], i + lo);
  }
}
