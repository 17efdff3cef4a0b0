/** Deriving the object-store key from a stored location, and the key shape
    used when a file is uploaded. */
module ObjectKey {

  const Slash: char := '/'

  /** The number of '/' characters in `s`. */
  function SlashCount(s: string): nat
  {
    if s == [] then 0 else (if s[0] == Slash then 1 else 0) + SlashCount(s[1..])
  }

  /** JavaScript's `s.split('/')`: the maximal '/'-free segments of `s`, in order.
      Even the empty string has one (empty) segment. */
  function Split(s: string): (segments: seq<string>)
    ensures |segments| == SlashCount(s) + 1
    ensures forall i :: 0 <= i < |segments| ==> Slash !in segments[i]
  {
    if s == [] then [[]]
    else
      var rest := Split(s[1..]);
      if s[0] == Slash then [[]] + rest
      else [[s[0]] + rest[0]] + rest[1..]
  }

  /** JavaScript's `segments.join('/')`: between '/'-free segments it puts
      exactly one separator, and it begins with the first segment. */
  function Join(segments: seq<string>): (s: string)
    ensures |segments| >= 1 && (forall i :: 0 <= i < |segments| ==> Slash !in segments[i]) ==>
      SlashCount(s) == |segments| - 1
    ensures |segments| >= 1 ==> |segments[0]| <= |s| && s[..|segments[0]|] == segments[0]
  {
    if |segments| == 0 then []
    else if |segments| == 1 then
      SlashCountNone(segments[0]);
      segments[0]
    else
      SlashCountNone(segments[0]);
      SlashCountAppend(segments[0] + [Slash], Join(segments[1..]));
      SlashCountAppend(segments[0], [Slash]);
      segments[0] + [Slash] + Join(segments[1..])
  }

  lemma {:induction false} SlashCountNone(s: string)
    ensures Slash !in s ==> SlashCount(s) == 0
  {
    if s != [] {
      assert s[0] in s;
      assert forall c :: c in s[1..] ==> c in s;
      SlashCountNone(s[1..]);
    }
  }

  lemma {:induction false} SlashCountAppend(a: string, b: string)
    ensures SlashCount(a + b) == SlashCount(a) + SlashCount(b)
  {
    if a == [] {
      assert a + b == b;
    } else {
      assert (a + b)[1..] == a[1..] + b;
      SlashCountAppend(a[1..], b);
    }
  }

  /** JavaScript's `xs.slice(n)` for a non-negative `n`: the elements from
      index `n` on, and the empty sequence when `n` is past the end. */
  function Drop<T>(xs: seq<T>, n: nat): (r: seq<T>)
    ensures |r| == if n <= |xs| then |xs| - n else 0
    ensures forall i :: 0 <= i < |r| ==> r[i] == xs[n + i]
  {
    if n <= |xs| then xs[n..] else []
  }

  /** An independent reading of the same thing: the text after the `n`-th '/'
      of `s`, or the empty string when `s` has fewer than `n` of them. */
  function AfterSlashes(s: string, n: nat): string
  {
    if n == 0 then s
    else if s == [] then []
    else AfterSlashes(s[1..], if s[0] == Slash then n - 1 else n)
  }

  /** The key of the object a location names: `fileUrl.split('/').slice(3).join('/')`.
      For `https://<host>/<key>` that drops the scheme, the empty segment between
      the two slashes of `//` and the host. Nothing is percent-decoded and there
      is no failure case: a location with fewer than three '/' gives the empty key. */
  function ExtractKey(location: string): (key: string)
    ensures key == AfterSlashes(location, 3)
    ensures |key| <= |location| && key == location[|location| - |key|..]
    ensures SlashCount(location) < 3 ==> key == []
  {
    DropSplitIsAfterSlashes(location, 3);
    AfterSlashesIsSuffix(location, 3);
    Join(Drop(Split(location), 3))
  }

  /** Joining the segments of a split gives back the string. */
  lemma {:induction false} JoinSplit(s: string)
    ensures Join(Split(s)) == s
  {
    if s != [] {
      var rest := Split(s[1..]);
      JoinSplit(s[1..]);
      if s[0] == Slash {
        assert Split(s) == [[]] + rest;
        assert Join(Split(s)) == [] + [Slash] + Join(rest);
      } else {
        var segments := [[s[0]] + rest[0]] + rest[1..];
        assert Split(s) == segments;
        if |rest| == 1 {
          assert Join(rest) == rest[0];
          assert Join(segments) == [s[0]] + rest[0];
        } else {
          assert segments[1..] == rest[1..];
          assert Join(rest) == rest[0] + [Slash] + Join(rest[1..]);
          assert Join(segments) == [s[0]] + rest[0] + [Slash] + Join(rest[1..]);
        }
        assert s == [s[0]] + s[1..];
      }
    }
  }

  /** A '/'-free string splits into itself. */
  lemma {:induction false} SplitWithoutSlash(s: string)
    requires Slash !in s
    ensures Split(s) == [s]
  {
    if s != [] {
      SplitWithoutSlash(s[1..]);
      assert s == [s[0]] + s[1..];
    }
  }

  /** Splitting at a '/' concatenates the segments of the two sides. */
  lemma {:induction false} SplitAppend(a: string, b: string)
    ensures Split(a + [Slash] + b) == Split(a) + Split(b)
  {
    var s := a + [Slash] + b;
    if a == [] {
      assert s[1..] == b;
    } else {
      assert s[1..] == a[1..] + [Slash] + b;
      SplitAppend(a[1..], b);
      var left := Split(a[1..]);
      var rest := left + Split(b);
      if a[0] != Slash {
        assert rest[0] == left[0];
        assert rest[1..] == left[1..] + Split(b);
      }
    }
  }

  /** Splitting undoes joining '/'-free segments. */
  lemma {:induction false} SplitJoin(segments: seq<string>)
    requires |segments| >= 1
    requires forall i :: 0 <= i < |segments| ==> Slash !in segments[i]
    ensures Split(Join(segments)) == segments
  {
    SplitWithoutSlash(segments[0]);
    if |segments| > 1 {
      SplitJoin(segments[1..]);
      SplitAppend(segments[0], Join(segments[1..]));
      assert segments == [segments[0]] + segments[1..];
    }
  }

  /** Dropping `n` segments and re-joining leaves exactly the text after the
      `n`-th '/'. */
  lemma {:induction false} DropSplitIsAfterSlashes(s: string, n: nat)
    ensures Join(Drop(Split(s), n)) == AfterSlashes(s, n)
  {
    if n == 0 {
      JoinSplit(s);
    } else if s != [] {
      var rest := Split(s[1..]);
      if s[0] == Slash {
        assert Split(s) == [[]] + rest;
        assert Drop(Split(s), n) == Drop(rest, n - 1);
        DropSplitIsAfterSlashes(s[1..], n - 1);
      } else {
        assert Split(s) == [[s[0]] + rest[0]] + rest[1..];
        assert Drop(Split(s), n) == Drop(rest, n);
        DropSplitIsAfterSlashes(s[1..], n);
      }
    }
  }

  /** The text after the `n`-th '/' is a suffix, empty when there are fewer than
      `n` slashes. */
  lemma {:induction false} AfterSlashesIsSuffix(s: string, n: nat)
    ensures var r := AfterSlashes(s, n); |r| <= |s| && r == s[|s| - |r|..]
    ensures 0 < n && SlashCount(s) < n ==> AfterSlashes(s, n) == []
  {
    if n > 0 && s != [] {
      AfterSlashesIsSuffix(s[1..], if s[0] == Slash then n - 1 else n);
    }
  }

  /** A prefix free of '/' is skipped by the search for the next '/'. */
  lemma {:induction false} AfterSlashesSkips(p: string, s: string, n: nat)
    requires 0 < n && Slash !in p
    ensures AfterSlashes(p + s, n) == AfterSlashes(s, n)
  {
    if p != [] {
      assert (p + s)[0] == p[0] && p[0] in p;
      assert (p + s)[1..] == p[1..] + s;
      AfterSlashesSkips(p[1..], s, n);
    } else {
      assert p + s == s;
    }
  }

  /** The key comes back out of the location `<scheme>//<host>/<key>` that the
      object store returns, whatever the key contains, '/' included, as long as
      neither the scheme nor the host contains '/'. */
  lemma {:induction false} KeyRoundTrip(scheme: string, host: string, key: string)
    requires Slash !in scheme && Slash !in host
    ensures ExtractKey(scheme + "//" + host + "/" + key) == key
  {
    var location := scheme + "//" + host + "/" + key;
    assert location == scheme + ("/" + ("/" + (host + ("/" + key))));
    AfterSlashesSkips(scheme, "/" + ("/" + (host + ("/" + key))), 3);
    assert ("/" + ("/" + (host + ("/" + key))))[1..] == "/" + (host + ("/" + key));
    assert ("/" + (host + ("/" + key)))[1..] == host + ("/" + key);
    AfterSlashesSkips(host, "/" + key, 1);
    assert ("/" + key)[1..] == key;
  }

  /** The location shape the object store returns for an S3 bucket host. */
  lemma HttpsKeyRoundTrip(host: string, key: string)
    requires Slash !in host
    ensures ExtractKey("https://" + host + "/" + key) == key
  {
    KeyRoundTrip("https:", host, key);
    assert "https:" + "//" + host + "/" + key == "https://" + host + "/" + key;
  }

  predicate IsDigit(c: char)
  {
    '0' <= c <= '9'
  }

  function DigitChar(d: nat): (c: char)
    requires d < 10
    ensures IsDigit(c) && c as int - '0' as int == d
  {
    ('0' as int + d) as char
  }

  function DigitValue(c: char): (d: nat)
    requires IsDigit(c)
    ensures d < 10
  {
    c as int - '0' as int
  }

  /** The decimal rendering of a millisecond timestamp (`${Date.now()}`). */
  function DecimalString(n: nat): (s: string)
    ensures |s| >= 1
    ensures forall i :: 0 <= i < |s| ==> IsDigit(s[i])
  {
    if n < 10 then [DigitChar(n)] else DecimalString(n / 10) + [DigitChar(n % 10)]
  }

  /** The number a string of decimal digits denotes. */
  function DecimalValue(s: string): nat
    requires forall i :: 0 <= i < |s| ==> IsDigit(s[i])
  {
    if s == [] then 0
    else DecimalValue(s[..|s| - 1]) * 10 + DigitValue(s[|s| - 1])
  }

  lemma {:induction false} DecimalRoundTrip(n: nat)
    ensures DecimalValue(DecimalString(n)) == n
  {
    if n >= 10 {
      var s := DecimalString(n);
      assert s[..|s| - 1] == DecimalString(n / 10);
      DecimalRoundTrip(n / 10);
    }
  }

  /** The key an upload is stored under: `${Date.now()}-${file.originalname}`. */
  function UploadKey(now: nat, originalName: string): (key: string)
    ensures |key| == |DecimalString(now)| + 1 + |originalName|
    ensures key[..|DecimalString(now)|] == DecimalString(now)
    ensures key[|DecimalString(now)|] == '-'
    ensures key[|key| - |originalName|..] == originalName
  {
    DecimalString(now) + "-" + originalName
  }

  /** Two uploads at different instants never share a key, even for the same
      original name; and the key determines the name. */
  lemma UploadKeyInjective(now1: nat, name1: string, now2: nat, name2: string)
    requires UploadKey(now1, name1) == UploadKey(now2, name2)
    ensures now1 == now2 && name1 == name2
  {
    var d1, d2 := DecimalString(now1), DecimalString(now2);
    var k := UploadKey(now1, name1);
    if |d1| != |d2| {
      assert false;
    }
    assert d1 == k[..|d1|] == d2;
    DecimalRoundTrip(now1);
    DecimalRoundTrip(now2);
  }
}
