/** The image rewrite at the end of CleaningAndFormatting: the regular expression
    `!\[[^\]]*\]` replaced by `![Illustration]`, written out as a left-to-right scan. */
module ImagePlaceholder {
  import Strings

  /** The alt text every image is given. */
  const Alt: string := "Illustration"

  /** The replacement. */
  const Placeholder: string := "![Illustration]"

  /** The replacement is itself a span, around the alt text. */
  lemma PlaceholderIsSpan()
    ensures Placeholder == "![" + Alt + "]" && ']' !in Alt
  {
  }

  /** The length of the prefix of `s` before its first ']' (|s| when there is none). */
  function UntilClose(s: string): (n: nat)
    ensures n <= |s|
    ensures forall k :: 0 <= k < n ==> s[k] != ']'
    ensures n < |s| <==> ']' in s
    ensures n < |s| ==> s[n] == ']'
  {
    if s == [] || s[0] == ']' then 0 else 1 + UntilClose(s[1..])
  }

  /** A span `![alt]` starts at the head of `s`: the regex matches at position 0. */
  predicate SpanAtHead(s: string) {
    |s| >= 2 && s[0] == '!' && s[1] == '[' && UntilClose(s[2..]) < |s| - 2
  }

  /** The length of the span `![alt]` at the head of `s`. */
  function SpanLength(s: string): (n: nat)
    requires SpanAtHead(s)
    ensures 3 <= n <= |s| && s[n - 1] == ']'
  {
    2 + UntilClose(s[2..]) + 1
  }

  /** Regex.Replace: where a match starts, the whole match becomes the placeholder and
      the scan resumes after it; elsewhere one character is copied. */
  function ReplaceImages(s: string): (r: string)
    decreases |s|
  {
    if s == [] then []
    else if SpanAtHead(s) then Placeholder + ReplaceImages(s[SpanLength(s)..])
    else [s[0]] + ReplaceImages(s[1..])
  }

  /** UntilClose is determined by where the first ']' is. */
  lemma {:induction false} UntilCloseExact(s: string, n: nat)
    requires n <= |s|
    requires forall k :: 0 <= k < n ==> s[k] != ']'
    requires n == |s| || s[n] == ']'
    ensures UntilClose(s) == n
  {
    if n > 0 {
      UntilCloseExact(s[1..], n - 1);
    }
  }

  /** The search for the closing bracket of a span starting at `i`. */
  method FindClose(text: string, i: nat) returns (j: nat)
    requires i + 2 <= |text|
    ensures j == i + 2 + UntilClose(text[i + 2..])
  {
    j := i + 2;
    while j < |text| && text[j] != ']'
      invariant i + 2 <= j <= |text|
      invariant forall k :: i + 2 <= k < j ==> text[k] != ']'
    {
      j := j + 1;
    }
    UntilCloseExact(text[i + 2..], j - (i + 2));
  }

  /** One step of the scan at position `i`: the placeholder for a span that starts
      there, or the character at `i` copied. */
  method ScanStep(text: string, i: nat) returns (piece: string, next: nat)
    requires i < |text|
    ensures i < next <= |text|
    ensures ReplaceImages(text[i..]) == piece + ReplaceImages(text[next..])
  {
    var j := |text|;
    if i + 2 <= |text| && text[i] == '!' && text[i + 1] == '[' {
      j := FindClose(text, i);
    }
    if j < |text| {
      piece, next := Placeholder, j + 1;
      SpanAt(text, i, j, piece, next);
    } else {
      piece, next := [text[i]], i + 1;
      CopyAt(text, i, piece, next);
    }
  }

  /** The regex matches at `i`, up to the ']' at `j`. */
  lemma SpanAt(text: string, i: nat, j: nat, piece: string, next: nat)
    requires i + 2 <= |text| && text[i] == '!' && text[i + 1] == '['
    requires j == i + 2 + UntilClose(text[i + 2..]) && j < |text|
    requires piece == Placeholder && next == j + 1
    ensures ReplaceImages(text[i..]) == piece + ReplaceImages(text[next..])
  {
    var s := text[i..];
    assert text[i + 2..] == s[2..];
    assert SpanAtHead(s) && SpanLength(s) == j + 1 - i;
    assert s[SpanLength(s)..] == text[j + 1..];
  }

  /** The regex does not match at `i`: the character there is copied. */
  lemma CopyAt(text: string, i: nat, piece: string, next: nat)
    requires i < |text|
    requires !(i + 2 <= |text| && text[i] == '!' && text[i + 1] == '['
               && i + 2 + UntilClose(text[i + 2..]) < |text|)
    requires piece == [text[i]] && next == i + 1
    ensures ReplaceImages(text[i..]) == piece + ReplaceImages(text[next..])
  {
    var s := text[i..];
    assert |s| >= 2 ==> text[i + 2..] == s[2..];
    assert !SpanAtHead(s);
    assert s[1..] == text[i + 1..];
  }

  /** The scanner: copies the text, replacing each `![alt]` span by the placeholder. */
  method RewriteImages(text: string) returns (result: string)
    ensures result == ReplaceImages(text)
  {
    result := [];
    var i := 0;
    while i < |text|
      invariant 0 <= i <= |text|
      invariant result + ReplaceImages(text[i..]) == ReplaceImages(text)
      decreases |text| - i
    {
      var piece, next := ScanStep(text, i);
      Strings.Associative(result, piece, ReplaceImages(text[next..]));
      result := result + piece;
      i := next;
    }
  }

  /** A span, whatever its alt text short of ']', becomes the placeholder; the text
      after it (such as the `(url)`) is scanned on. */
  lemma SpanReplaced(alt: string, rest: string)
    requires ']' !in alt
    ensures ReplaceImages("![" + alt + "]" + rest) == Placeholder + ReplaceImages(rest)
  {
    var s := "![" + alt + "]" + rest;
    assert s[2..] == alt + "]" + rest;
    assert s[2..][|alt|] == ']';
    UntilCloseExact(s[2..], |alt|);
    assert s[SpanLength(s)..] == rest;
  }

  /** Text without '!' before the first span is copied unchanged. */
  lemma {:induction false} PlainPrefixKept(a: string, b: string)
    requires '!' !in a
    ensures ReplaceImages(a + b) == a + ReplaceImages(b)
  {
    if a != [] {
      assert (a + b)[0] == a[0] && (a + b)[1..] == a[1..] + b;
      assert a[0] != '!' && '!' !in a[1..];
      HeadCopied(a + b);
      PlainPrefixKept(a[1..], b);
      Strings.Associative([a[0]], a[1..], ReplaceImages(b));
      assert [a[0]] + a[1..] == a;
    } else {
      assert a + b == b;
    }
  }

  /** A text with no ']' has no span: it is left as it is, `![` included. */
  lemma {:induction false} UnclosedKept(s: string)
    requires ']' !in s
    ensures ReplaceImages(s) == s
  {
    if s != [] {
      assert !SpanAtHead(s) by {
        if |s| >= 2 {
          assert forall k :: 0 <= k < |s[2..]| ==> s[2..][k] == s[k + 2];
        }
      }
      assert ']' !in s[1..] by {
        assert forall k :: 0 <= k < |s[1..]| ==> s[1..][k] == s[k + 1];
      }
      UnclosedKept(s[1..]);
      assert [s[0]] + s[1..] == s;
    }
  }

  /** A text with no `![` has no span: it is left as it is. */
  lemma {:induction false} NoOpeningKept(s: string)
    requires forall k :: 0 <= k < |s| - 1 ==> !(s[k] == '!' && s[k + 1] == '[')
    ensures ReplaceImages(s) == s
  {
    if s != [] {
      forall k | 0 <= k < |s[1..]| - 1 ensures !(s[1..][k] == '!' && s[1..][k + 1] == '[') {
        assert s[1..][k] == s[k + 1] && s[1..][k + 1] == s[k + 2];
      }
      NoOpeningKept(s[1..]);
      assert [s[0]] + s[1..] == s;
    }
  }

  /** The rewrite keeps the presence of a ']' (a span both holds one and becomes one). */
  lemma {:induction false} CloseKept(s: string)
    ensures ']' in ReplaceImages(s) <==> ']' in s
    decreases |s|
  {
    if s != [] {
      if SpanAtHead(s) {
        var n := SpanLength(s);
        CloseKept(s[n..]);
        assert Placeholder[|Placeholder| - 1] == ']';
        assert s[n - 1] == ']';
      } else {
        CloseKept(s[1..]);
        assert s == [s[0]] + s[1..];
      }
    }
  }

  /** A text whose head is not '!' has its first character copied. */
  lemma HeadCopied(s: string)
    requires s != [] && s[0] != '!'
    ensures ReplaceImages(s) == [s[0]] + ReplaceImages(s[1..])
  {
  }

  /** Rewriting a copied '!' in front of already rewritten text starts no new span. */
  lemma BangKept(s: string)
    requires s != [] && !SpanAtHead(s)
    ensures !SpanAtHead([s[0]] + ReplaceImages(s[1..]))
  {
    var t := s[1..];
    var y := ReplaceImages(t);
    if s[0] == '!' && |y| >= 1 && y[0] == '[' {
      assert t != [] && !SpanAtHead(t) && t[0] == '[';
      HeadCopied(t);
      CloseKept(t[1..]);
      assert t[1..] == s[2..];
      assert ([s[0]] + y)[2..] == ReplaceImages(t[1..]);
    }
  }

  /** Rewriting twice changes nothing more. */
  lemma {:induction false} ReplaceIdempotent(s: string)
    ensures ReplaceImages(ReplaceImages(s)) == ReplaceImages(s)
    decreases |s|
  {
    if s != [] {
      if SpanAtHead(s) {
        var rest := s[SpanLength(s)..];
        ReplaceIdempotent(rest);
        PlaceholderIsSpan();
        SpanReplaced(Alt, ReplaceImages(rest));
      } else {
        ReplaceIdempotent(s[1..]);
        var r := [s[0]] + ReplaceImages(s[1..]);
        BangKept(s);
        assert r[0] == s[0] && r[1..] == ReplaceImages(s[1..]);
      }
    }
  }
}
