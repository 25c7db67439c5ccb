/** `compute_cache_key` of `app/core/cache.py`: the key of a request is the
    hex BLAKE2b digest of the image bytes, a "|" byte, the sorted metric names
    joined by ",", a "|" byte and the edge mode (or nothing).

    BLAKE2b itself (RFC 7693, 64-byte output per its section 2.1) is not
    modelled: the digest is a parameter of the key function, so everything
    proved here holds for whatever function computes it. */
module CacheKey {
  import opened Wrappers
  import opened Config
  import opened Strings
  import Validators

  /** A BLAKE2b-512 digest. */
  type Digest = d: seq<byte> | |d| == 64 witness seq(64, _ => 0 as byte)

  /** The byte of `b"|"`. */
  const SEPARATOR: byte := 124

  // ---------------------------------------------------------------------
  // Python's ordering of `str`: lexicographic by code point

  predicate LexLess(a: string, b: string)
  {
    if |a| == 0 then |b| > 0
    else if |b| == 0 then false
    else if a[0] == b[0] then LexLess(a[1..], b[1..])
    else a[0] < b[0]
  }

  lemma {:induction false} LexIrreflexive(a: string)
    ensures !LexLess(a, a)
  {
    if |a| > 0 { LexIrreflexive(a[1..]); }
  }

  lemma {:induction false} LexAsymmetric(a: string, b: string)
    ensures !(LexLess(a, b) && LexLess(b, a))
  {
    if |a| > 0 && |b| > 0 && a[0] == b[0] { LexAsymmetric(a[1..], b[1..]); }
  }

  lemma {:induction false} LexTransitive(a: string, b: string, c: string)
    requires LexLess(a, b) && LexLess(b, c)
    ensures LexLess(a, c)
  {
    if |a| > 0 && a[0] == b[0] && b[0] == c[0] {
      LexTransitive(a[1..], b[1..], c[1..]);
    }
  }

  lemma {:induction false} LexTotal(a: string, b: string)
    ensures a == b || LexLess(a, b) || LexLess(b, a)
  {
    if |a| > 0 && |b| > 0 && a[0] == b[0] {
      LexTotal(a[1..], b[1..]);
      if a[1..] == b[1..] {
        assert a == [a[0]] + a[1..] && b == [b[0]] + b[1..];
      }
    }
  }

  // ---------------------------------------------------------------------
  // `sorted(metrics)`

  ghost predicate IsLeast(m: string, s: set<string>)
  {
    m in s && forall x :: x in s && x != m ==> LexLess(m, x)
  }

  lemma {:induction false} LeastExists(s: set<string>)
    requires s != {}
    ensures exists m :: IsLeast(m, s)
    decreases |s|
  {
    var x :| x in s;
    if s != {x} {
      LeastExists(s - {x});
      var m :| IsLeast(m, s - {x});
      LexTotal(x, m);
      if LexLess(x, m) {
        forall y | y in s && y != x
          ensures LexLess(x, y)
        {
          if y != m { LexTransitive(x, m, y); }
        }
        assert IsLeast(x, s);
      } else {
        assert IsLeast(m, s);
      }
    } else {
      assert IsLeast(x, s);
    }
  }

  predicate StrictlySorted(xs: seq<string>)
  {
    forall i, j :: 0 <= i < j < |xs| ==> LexLess(xs[i], xs[j])
  }

  /** `sorted(s)`: the members of `s` in increasing order. */
  ghost function SortedNames(s: set<string>): (r: seq<string>)
    ensures StrictlySorted(r)
    ensures forall x :: x in r <==> x in s
    ensures |r| == |s|
    decreases |s|
  {
    if s == {} then []
    else
      LeastExists(s);
      var m :| IsLeast(m, s);
      var rest := SortedNames(s - {m});
      LeastFirst(m, s, rest);
      [m] + rest
  }

  /** The least name followed by a sorted listing of the others is a sorted
      listing of all of them. */
  lemma LeastFirst(m: string, s: set<string>, rest: seq<string>)
    requires IsLeast(m, s) && StrictlySorted(rest)
    requires forall x :: x in rest <==> x in s - {m}
    requires |rest| == |s - {m}|
    ensures StrictlySorted([m] + rest)
    ensures forall x :: x in [m] + rest <==> x in s
    ensures |[m] + rest| == |s|
  {
    assert forall j :: 0 <= j < |rest| ==> rest[j] in s - {m};
    var r := [m] + rest;
    forall i, j | 0 <= i < j < |r|
      ensures LexLess(r[i], r[j])
    {
      assert r[j] == rest[j - 1];
      if i > 0 {
        assert r[i] == rest[i - 1];
      }
    }
  }

  /** There is one strictly sorted listing of a set of names. */
  lemma {:induction false} SortedUnique(a: seq<string>, b: seq<string>)
    requires StrictlySorted(a) && StrictlySorted(b)
    requires |a| == |b|
    requires forall x :: x in a <==> x in b
    ensures a == b
  {
    if a != [] {
      assert a[0] in b;
      if a[0] != b[0] {
        assert b[0] in a;
        var i :| 0 <= i < |a| && a[i] == b[0];
        var j :| 0 <= j < |b| && b[j] == a[0];
        assert LexLess(a[0], b[0]);
        assert LexLess(b[0], a[0]);
        LexAsymmetric(a[0], b[0]);
        assert false;
      }
      assert a == [a[0]] + a[1..] && b == [b[0]] + b[1..];
      forall x
        ensures x in a[1..] <==> x in b[1..]
      {
        if x in a[1..] {
          var k :| 0 <= k < |a| - 1 && a[1..][k] == x;
          assert a[k + 1] == x && x in a && x in b;
          assert LexLess(a[0], a[k + 1]);
          LexIrreflexive(a[0]);
          assert x != b[0];
          assert x in b[1..];
        }
        if x in b[1..] {
          var k :| 0 <= k < |b| - 1 && b[1..][k] == x;
          assert b[k + 1] == x && x in b && x in a;
          assert LexLess(b[0], b[k + 1]);
          LexIrreflexive(b[0]);
          assert x != a[0];
          assert x in a[1..];
        }
      }
      SortedUnique(a[1..], b[1..]);
      assert a == [a[0]] + a[1..] && b == [b[0]] + b[1..];
    }
  }

  /** `",".join(sorted(metrics))`. */
  ghost function MetricsText(metrics: set<string>): string
  {
    Join(SortedNames(metrics), ',')
  }

  /** `edge_mode or ""`. */
  function EdgeModeText(edgeMode: Option<string>): string
  {
    match edgeMode
    case None => ""
    case Some(m) => m
  }

  /** The bytes the hasher is fed. */
  ghost function Preimage(image: seq<byte>, metrics: set<string>, edgeMode: Option<string>)
    : seq<byte>
  {
    image + [SEPARATOR] + Utf8(MetricsText(metrics)) + [SEPARATOR] + Utf8(EdgeModeText(edgeMode))
  }

  // ---------------------------------------------------------------------
  // `hexdigest()`

  predicate IsLowerHex(c: char)
  {
    '0' <= c <= '9' || 'a' <= c <= 'f'
  }

  function HexDigit(n: nat): (c: char)
    requires n < 16
    ensures IsLowerHex(c)
  {
    if n < 10 then ('0' as int + n) as char else ('a' as int + n - 10) as char
  }

  function HexValue(c: char): nat
    requires IsLowerHex(c)
  {
    if c <= '9' then c as int - '0' as int else c as int - 'a' as int + 10
  }

  lemma HexDigitValue(n: nat)
    requires n < 16
    ensures HexValue(HexDigit(n)) == n
  {
  }

  /** Two lowercase hex digits per byte, high nibble first. */
  function HexDigest(d: seq<byte>): (h: string)
    ensures |h| == 2 * |d|
    ensures forall k :: 0 <= k < |h| ==> IsLowerHex(h[k])
  {
    if d == [] then ""
    else [HexDigit(d[0] as nat / 16), HexDigit(d[0] as nat % 16)] + HexDigest(d[1..])
  }

  /** Hex encoding loses nothing: equal hex strings come from equal bytes. */
  lemma {:induction false} HexDigestInjective(a: seq<byte>, b: seq<byte>)
    requires HexDigest(a) == HexDigest(b)
    ensures a == b
  {
    if a != [] {
      var ha, hb := HexDigest(a), HexDigest(b);
      assert |b| == |a|;
      assert ha[0] == hb[0] && ha[1] == hb[1];
      HexDigitValue(a[0] as nat / 16);
      HexDigitValue(b[0] as nat / 16);
      HexDigitValue(a[0] as nat % 16);
      HexDigitValue(b[0] as nat % 16);
      assert a[0] == b[0];
      assert HexDigest(a[1..]) == ha[2..] == hb[2..] == HexDigest(b[1..]);
      HexDigestInjective(a[1..], b[1..]);
      assert a == [a[0]] + a[1..] && b == [b[0]] + b[1..];
    }
  }

  /** `compute_cache_key`, with `digest` standing for BLAKE2b-512. */
  ghost function ComputeCacheKey(digest: seq<byte> -> Digest, image: seq<byte>,
                                 metrics: set<string>, edgeMode: Option<string>): (key: string)
    ensures |key| == 128
    ensures forall k :: 0 <= k < |key| ==> IsLowerHex(key[k])
  {
    HexDigest(digest(Preimage(image, metrics, edgeMode)))
  }

  /** `w` occurs in `s` at position `i`. */
  predicate OccursAt(w: string, s: string, i: nat)
  {
    i + |w| <= |s| && s[i..i + |w|] == w
  }

  /** The key is made of hex digits only, so no text with a letter past 'f'
      (such as "secret", or any URL) can appear in it. */
  lemma KeyHasNoSecret(digest: seq<byte> -> Digest, image: seq<byte>,
                       metrics: set<string>, edgeMode: Option<string>)
    ensures var key := ComputeCacheKey(digest, image, metrics, edgeMode);
            forall i: nat :: !OccursAt("secret", key, i)
  {
    var key := ComputeCacheKey(digest, image, metrics, edgeMode);
    forall i: nat
      ensures !OccursAt("secret", key, i)
    {
      if i + 6 <= |key| {
        assert key[i..i + 6][0] == key[i];
        assert !IsLowerHex('s');
      }
    }
  }

  /** A missing edge mode and an empty one are fed to the hasher alike. */
  lemma NoneAndEmptyEdgeModeAgree(digest: seq<byte> -> Digest, image: seq<byte>,
                                  metrics: set<string>)
    ensures ComputeCacheKey(digest, image, metrics, None)
         == ComputeCacheKey(digest, image, metrics, Some(""))
  {
  }

  /** The metric names enter through their sorted join:
      {"median", "brightness"} is fed as "brightness,median". */
  lemma MetricsTextSorted()
    ensures MetricsText({"median", "brightness"}) == "brightness,median"
  {
    var listing := ["brightness", "median"];
    assert LexLess("brightness", "median");
    assert StrictlySorted(listing);
    SortedUnique(SortedNames({"median", "brightness"}), listing);
  }

  // ---------------------------------------------------------------------
  // The separators keep validated requests apart

  /** A request whose parameters passed validation. */
  ghost predicate ValidatedRequest(metrics: set<string>, edgeMode: Option<string>)
  {
    metrics <= Validators.VALID_METRICS
    && (edgeMode.Some? ==> edgeMode.value in Validators.VALID_EDGE_MODES)
  }

  /** Text that can sit between separators without ambiguity. */
  predicate PlainText(s: string)
  {
    IsAscii(s) && '|' !in s && ',' !in s && s != ""
  }

  lemma ValidNamesPlain()
    ensures forall n :: n in Validators.VALID_METRICS ==> PlainText(n)
    ensures forall n :: n in Validators.VALID_EDGE_MODES ==> PlainText(n)
  {
    MetricNamesPlain();
    EdgeModeNamesPlain();
  }

  lemma MetricNamesPlain()
    ensures PlainText("brightness") && PlainText("median") && PlainText("histogram")
  {
  }

  lemma EdgeModeNamesPlain()
    ensures PlainText("left_right") && PlainText("top_bottom") && PlainText("all")
  {
  }

  lemma {:induction false} JoinPlain(parts: seq<string>)
    requires forall k :: 0 <= k < |parts| ==> PlainText(parts[k])
    ensures IsAscii(Join(parts, ',')) && '|' !in Join(parts, ',')
    ensures parts != [] ==> Join(parts, ',') != ""
  {
    if |parts| > 1 {
      JoinPlain(parts[1..]);
      var j := Join(parts, ',');
      assert j == parts[0] + [','] + Join(parts[1..], ',');
      assert |j| > 0;
    }
  }

  /** The number of bytes after the last separator of `s`. */
  function TailLength(s: seq<byte>): nat
  {
    if s == [] || s[|s| - 1] == SEPARATOR then 0 else 1 + TailLength(s[..|s| - 1])
  }

  lemma {:induction false} TailLengthOf(x: seq<byte>, y: seq<byte>)
    requires SEPARATOR !in y
    ensures TailLength(x + [SEPARATOR] + y) == |y|
  {
    var s := x + [SEPARATOR] + y;
    if y != [] {
      var y' := y[..|y| - 1];
      assert s[..|s| - 1] == x + [SEPARATOR] + y';
      assert y[|y| - 1] in y;
      TailLengthOf(x, y');
    }
  }

  /** The two pieces around the last separator of a byte string. */
  lemma SplitAtLastSeparator(x1: seq<byte>, y1: seq<byte>, x2: seq<byte>, y2: seq<byte>)
    requires SEPARATOR !in y1 && SEPARATOR !in y2
    requires x1 + [SEPARATOR] + y1 == x2 + [SEPARATOR] + y2
    ensures x1 == x2 && y1 == y2
  {
    var s := x1 + [SEPARATOR] + y1;
    TailLengthOf(x1, y1);
    TailLengthOf(x2, y2);
    assert x1 == s[..|x1|] && x2 == s[..|x2|];
    assert y1 == s[|x1| + 1..] && y2 == s[|x2| + 1..];
  }

  lemma MetricsTextPlain(metrics: set<string>)
    requires metrics <= Validators.VALID_METRICS
    ensures IsAscii(MetricsText(metrics)) && '|' !in MetricsText(metrics)
    ensures SEPARATOR !in Utf8(MetricsText(metrics))
    ensures metrics != {} ==> MetricsText(metrics) != ""
  {
    ValidNamesPlain();
    var names := SortedNames(metrics);
    assert forall k :: 0 <= k < |names| ==> names[k] in metrics;
    JoinPlain(names);
    Utf8AsciiByte(MetricsText(metrics), '|');
    if metrics != {} {
      var x :| x in metrics;
      assert x in names;
    }
  }

  lemma EdgeModeTextPlain(edgeMode: Option<string>)
    requires edgeMode.Some? ==> edgeMode.value in Validators.VALID_EDGE_MODES
    ensures IsAscii(EdgeModeText(edgeMode)) && SEPARATOR !in Utf8(EdgeModeText(edgeMode))
    ensures edgeMode.Some? ==> EdgeModeText(edgeMode) != ""
  {
    ValidNamesPlain();
    Utf8AsciiByte(EdgeModeText(edgeMode), '|');
  }

  /** The sorted listing of validated names has one item per name and no
      item holding a comma. */
  lemma SortedNamesNoComma(metrics: set<string>)
    requires metrics <= Validators.VALID_METRICS
    ensures forall k :: 0 <= k < |SortedNames(metrics)| ==> ',' !in SortedNames(metrics)[k]
  {
    ValidNamesPlain();
    var names := SortedNames(metrics);
    assert forall k :: 0 <= k < |names| ==> names[k] in metrics;
  }

  /** Validated metric sets with the same join are the same set. */
  lemma MetricsTextInjective(m1: set<string>, m2: set<string>)
    requires m1 <= Validators.VALID_METRICS && m2 <= Validators.VALID_METRICS
    requires MetricsText(m1) == MetricsText(m2)
    ensures m1 == m2
  {
    assert m1 == {} <==> m2 == {} by {
      MetricsTextPlain(m1);
      MetricsTextPlain(m2);
    }
    if m1 != {} {
      var n1, n2 := SortedNames(m1), SortedNames(m2);
      assert n1 == n2 by {
        SortedNamesNoComma(m1);
        SortedNamesNoComma(m2);
        SplitJoin(n1, ',');
        SplitJoin(n2, ',');
      }
      assert forall x :: x in m1 <==> x in n1;
    }
  }

  /** Distinct validated requests feed the hasher distinct bytes. */
  lemma PreimageInjective(image1: seq<byte>, metrics1: set<string>, edgeMode1: Option<string>,
                          image2: seq<byte>, metrics2: set<string>, edgeMode2: Option<string>)
    requires ValidatedRequest(metrics1, edgeMode1) && ValidatedRequest(metrics2, edgeMode2)
    requires Preimage(image1, metrics1, edgeMode1) == Preimage(image2, metrics2, edgeMode2)
    ensures image1 == image2 && metrics1 == metrics2 && edgeMode1 == edgeMode2
  {
    MetricsTextPlain(metrics1);
    MetricsTextPlain(metrics2);
    EdgeModeTextPlain(edgeMode1);
    EdgeModeTextPlain(edgeMode2);
    var t1, t2 := Utf8(MetricsText(metrics1)), Utf8(MetricsText(metrics2));
    var e1, e2 := Utf8(EdgeModeText(edgeMode1)), Utf8(EdgeModeText(edgeMode2));
    SplitAtLastSeparator(image1 + [SEPARATOR] + t1, e1, image2 + [SEPARATOR] + t2, e2);
    SplitAtLastSeparator(image1, t1, image2, t2);
    Utf8AsciiInjective(MetricsText(metrics1), MetricsText(metrics2));
    Utf8AsciiInjective(EdgeModeText(edgeMode1), EdgeModeText(edgeMode2));
    MetricsTextInjective(metrics1, metrics2);
  }

  /** Two distinct validated requests can share a key only through a
      collision of the digest itself. */
  lemma SharedKeyIsDigestCollision(digest: seq<byte> -> Digest,
                                   image1: seq<byte>, metrics1: set<string>, edgeMode1: Option<string>,
                                   image2: seq<byte>, metrics2: set<string>, edgeMode2: Option<string>)
    requires ValidatedRequest(metrics1, edgeMode1) && ValidatedRequest(metrics2, edgeMode2)
    requires (image1, metrics1, edgeMode1) != (image2, metrics2, edgeMode2)
    requires ComputeCacheKey(digest, image1, metrics1, edgeMode1)
          == ComputeCacheKey(digest, image2, metrics2, edgeMode2)
    ensures var p1, p2 := Preimage(image1, metrics1, edgeMode1), Preimage(image2, metrics2, edgeMode2);
            p1 != p2 && digest(p1) == digest(p2)
  {
    var p1, p2 := Preimage(image1, metrics1, edgeMode1), Preimage(image2, metrics2, edgeMode2);
    HexDigestInjective(digest(p1), digest(p2));
    if p1 == p2 {
      PreimageInjective(image1, metrics1, edgeMode1, image2, metrics2, edgeMode2);
    }
  }
}
