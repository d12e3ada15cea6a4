/**
 The basename pieces of the gallery add-on (src/components/SEOFriendlyImageNames.tsx):
 the pluralized product-type slug and the full
 `<type>s-<handle>-<image|video>-<hash prefix>` basename.
 */
module Slug {
  import opened Wrappers
  import opened JsText

  /** `s` with its leading `\s` characters removed. */
  function DropWhitespace(s: string): (r: string)
    ensures |r| <= |s|
    ensures (forall i | 0 <= i < |s| :: !IsAsciiUpper(s[i])) ==> forall i | 0 <= i < |r| :: !IsAsciiUpper(r[i])
    ensures r == [] || !IsWhitespace(r[0])
    ensures s != [] && IsWhitespace(s[0]) ==> |r| < |s|
    ensures s != [] && !IsWhitespace(s[0]) ==> r == s
  {
    if s != [] && IsWhitespace(s[0]) then DropWhitespace(s[1..]) else s
  }

  /** Every maximal run of `\s` characters becomes one hyphen. */
  function CollapseWhitespace(s: string): (r: string)
    ensures NoWhitespace(r)
    ensures |r| <= |s|
    ensures (forall i | 0 <= i < |s| :: !IsAsciiUpper(s[i])) ==> forall i | 0 <= i < |r| :: !IsAsciiUpper(r[i])
    decreases |s|
  {
    if s == [] then []
    else if IsWhitespace(s[0]) then "-" + CollapseWhitespace(DropWhitespace(s))
    else [s[0]] + CollapseWhitespace(s[1..])
  }

  /**
   `slugifyProductType`: lower-case, collapse each whitespace run to "-", and
   pluralize with a trailing "s".
   */
  function SlugifyProductType(productType: string): (r: string)
    ensures |r| >= 1 && r[|r| - 1] == 's'
    ensures NoWhitespace(r)
    ensures forall i | 0 <= i < |r| :: !IsAsciiUpper(r[i])
    ensures |r| <= |productType| + 1
  {
    CollapseWhitespace(LowerCase(productType)) + "s"
  }

  /** The media marker: "video" exactly when a MIME type is given and starts with "video". */
  function MediaKind(mimeType: Option<string>): (r: string)
    ensures r == "video" <==> mimeType.Some? && StartsWith(mimeType.value, "video")
    ensures r != "video" ==> r == "image"
  {
    if mimeType.Some? && StartsWith(mimeType.value, "video") then "video" else "image"
  }

  /** The first five characters of the md5 (all of it when shorter): the prefix that disambiguates basenames. */
  function NumberSuffix(md5: string): (r: string)
    ensures |r| == if |md5| < 5 then |md5| else 5
    ensures StartsWith(md5, r)
  {
    if |md5| < 5 then md5 else md5[..5]
  }

  /**
   `slugifyImageName`: the four parts joined by "-". The handle is printed as the
   template literal prints it, so a null or missing handle appears as "null" or
   "undefined".
   */
  function SlugifyImageName(productType: string, productHandle: StringValue,
                            mimeType: Option<string>, numberSuffix: string): (r: string)
    ensures StartsWith(r, SlugifyProductType(productType) + "-" + Interpolate(productHandle) + "-")
    ensures r[|SlugifyProductType(productType)| + 1 + |Interpolate(productHandle)| + 1..]
         == MediaKind(mimeType) + "-" + numberSuffix
  {
    SlugifyProductType(productType) + "-" + Interpolate(productHandle) + "-" + MediaKind(mimeType) + "-" + numberSuffix
  }

  /** Leading whitespace of a concatenation: it stops inside `a` unless `a` is all whitespace. */
  lemma {:induction false} DropWhitespaceAppend(a: string, b: string)
    ensures DropWhitespace(a) != [] ==> DropWhitespace(a + b) == DropWhitespace(a) + b
    ensures DropWhitespace(a) == [] ==> DropWhitespace(a + b) == DropWhitespace(b)
  {
    if a == [] {
      assert a + b == b;
    } else {
      assert (a + b)[0] == a[0];
      if IsWhitespace(a[0]) {
        assert (a + b)[1..] == a[1..] + b;
        DropWhitespaceAppend(a[1..], b);
      }
    }
  }

  /** A non-whitespace head passes through the collapse. */
  lemma {:induction false} CollapseKeepsHead(c: char, t: string)
    requires !IsWhitespace(c)
    ensures CollapseWhitespace([c] + t) == [c] + CollapseWhitespace(t)
  {
    assert ([c] + t)[0] == c && ([c] + t)[1..] == t;
  }

  /** A whitespace head starts a run that becomes one hyphen. */
  lemma {:induction false} CollapseHeadRun(s: string)
    requires s != [] && IsWhitespace(s[0])
    ensures CollapseWhitespace(s) == "-" + CollapseWhitespace(DropWhitespace(s))
  {
  }

  /**
   Collapsing distributes over a concatenation that does not split a whitespace
   run: the join point has a non-whitespace character on at least one side.
   */
  lemma {:induction false} CollapseAppend(a: string, b: string)
    requires a == [] || b == [] || !IsWhitespace(a[|a| - 1]) || !IsWhitespace(b[0])
    ensures CollapseWhitespace(a + b) == CollapseWhitespace(a) + CollapseWhitespace(b)
    decreases |a|, 2
  {
    if a == [] {
      assert a + b == b;
    } else if !IsWhitespace(a[0]) {
      CollapseAppendKeptHead(a, b);
    } else {
      CollapseAppendRunHead(a, b);
    }
  }

  lemma {:induction false} CollapseAppendKeptHead(a: string, b: string)
    requires a != [] && !IsWhitespace(a[0])
    requires b == [] || !IsWhitespace(a[|a| - 1]) || !IsWhitespace(b[0])
    ensures CollapseWhitespace(a + b) == CollapseWhitespace(a) + CollapseWhitespace(b)
    decreases |a|, 0
  {
    var t := a[1..];
    assert a == [a[0]] + t;
    assert a + b == [a[0]] + (t + b);
    CollapseKeepsHead(a[0], t + b);
    CollapseKeepsHead(a[0], t);
    CollapseAppend(t, b);
  }

  lemma {:induction false} CollapseAppendRunHead(a: string, b: string)
    requires a != [] && IsWhitespace(a[0])
    requires b == [] || !IsWhitespace(a[|a| - 1]) || !IsWhitespace(b[0])
    ensures CollapseWhitespace(a + b) == CollapseWhitespace(a) + CollapseWhitespace(b)
    decreases |a|, 1
  {
    assert (a + b)[0] == a[0];
    CollapseHeadRun(a + b);
    CollapseHeadRun(a);
    DropWhitespaceAppend(a, b);
    if DropWhitespace(a) == [] {
      CollapseAppendAllWhitespace(a, b);
    } else {
      CollapseAppendRunRest(a, b);
    }
  }

  /** The run at the head of `a` stops inside `a`: collapse what follows it together with `b`. */
  lemma {:induction false} CollapseAppendRunRest(a: string, b: string)
    requires a != [] && IsWhitespace(a[0]) && DropWhitespace(a) != []
    requires b == [] || !IsWhitespace(a[|a| - 1]) || !IsWhitespace(b[0])
    requires CollapseWhitespace(a + b) == "-" + CollapseWhitespace(DropWhitespace(a + b))
    requires CollapseWhitespace(a) == "-" + CollapseWhitespace(DropWhitespace(a))
    requires DropWhitespace(a + b) == DropWhitespace(a) + b
    ensures CollapseWhitespace(a + b) == CollapseWhitespace(a) + CollapseWhitespace(b)
    decreases |a|, 0
  {
    var rest := DropWhitespace(a);
    assert CollapseWhitespace(rest + b) == CollapseWhitespace(rest) + CollapseWhitespace(b) by {
      DropWhitespaceKeepsLast(a);
      CollapseAppend(rest, b);
    }
    HyphenJoin(CollapseWhitespace(a + b), CollapseWhitespace(a), CollapseWhitespace(rest),
               CollapseWhitespace(b), CollapseWhitespace(rest + b));
  }

  lemma HyphenJoin(whole: string, left: string, leftRest: string, right: string, restRight: string)
    requires whole == "-" + restRight && restRight == leftRest + right && left == "-" + leftRest
    ensures whole == left + right
  {
  }

  /** A concatenation whose left part is one whitespace run. */
  lemma {:induction false} CollapseAppendAllWhitespace(a: string, b: string)
    requires a != [] && DropWhitespace(a) == []
    requires b == [] || !IsWhitespace(a[|a| - 1]) || !IsWhitespace(b[0])
    requires CollapseWhitespace(a + b) == "-" + CollapseWhitespace(DropWhitespace(a + b))
    requires CollapseWhitespace(a) == "-" + CollapseWhitespace(DropWhitespace(a))
    requires DropWhitespace(a + b) == DropWhitespace(b)
    ensures CollapseWhitespace(a + b) == CollapseWhitespace(a) + CollapseWhitespace(b)
  {
    // `a` is all whitespace, so `b` cannot start with whitespace.
    LastIsWhitespace(a);
    assert DropWhitespace(b) == b;
    assert CollapseWhitespace(a) == "-";
  }

  /** Dropping leading whitespace that stops short of the end keeps the last character. */
  lemma {:induction false} DropWhitespaceKeepsLast(a: string)
    requires DropWhitespace(a) != []
    ensures DropWhitespace(a)[|DropWhitespace(a)| - 1] == a[|a| - 1]
  {
    if IsWhitespace(a[0]) {
      DropWhitespaceKeepsLast(a[1..]);
    }
  }

  /** A string that is all leading whitespace ends in whitespace. */
  lemma {:induction false} LastIsWhitespace(a: string)
    requires a != [] && DropWhitespace(a) == []
    ensures IsWhitespace(a[|a| - 1])
  {
    if |a| > 1 {
      assert a[1..][|a| - 2] == a[|a| - 1];
      LastIsWhitespace(a[1..]);
    }
  }

  /** A string whose whitespace prefix is all of it is all whitespace. */
  lemma {:induction false} AllWhitespace(a: string)
    requires DropWhitespace(a) == []
    ensures forall i | 0 <= i < |a| :: IsWhitespace(a[i])
  {
    if a != [] {
      AllWhitespace(a[1..]);
      assert forall i | 1 <= i < |a| :: a[i] == a[1..][i - 1];
    }
  }

  /** Text without whitespace passes through the collapse unchanged (and only such text does). */
  lemma {:induction false} CollapseIdentity(s: string)
    ensures CollapseWhitespace(s) == s <==> NoWhitespace(s)
  {
    if NoWhitespace(s) && s != [] {
      assert NoWhitespace(s[1..]) by {
        assert forall i | 0 <= i < |s| - 1 :: s[1..][i] == s[i + 1];
      }
      CollapseIdentity(s[1..]);
    }
  }

  /**
   Each maximal whitespace run becomes exactly one hyphen: a non-empty run `w`
   with non-whitespace (or nothing) on both sides collapses to "-".
   */
  lemma {:induction false} CollapseRun(a: string, w: string, b: string)
    requires w != [] && forall i | 0 <= i < |w| :: IsWhitespace(w[i])
    requires a == [] || !IsWhitespace(a[|a| - 1])
    requires b == [] || !IsWhitespace(b[0])
    ensures CollapseWhitespace(a + w + b) == CollapseWhitespace(a) + "-" + CollapseWhitespace(b)
  {
    assert a + w + b == a + (w + b);
    assert (w + b)[0] == w[0];
    CollapseAppend(a, w + b);
    CollapseHeadRun(w + b);
    WhitespaceRunDropped(w, b);
    ConcatAssoc(CollapseWhitespace(a), "-", CollapseWhitespace(b));
  }

  lemma ConcatAssoc(x: string, y: string, z: string)
    ensures x + (y + z) == x + y + z
  {
  }

  lemma {:induction false} WhitespaceRunDropped(w: string, b: string)
    requires forall i | 0 <= i < |w| :: IsWhitespace(w[i])
    requires b == [] || !IsWhitespace(b[0])
    ensures DropWhitespace(w + b) == b
  {
    if w == [] {
      assert w + b == b;
    } else {
      assert (w + b)[0] == w[0] && (w + b)[1..] == w[1..] + b;
      WhitespaceRunDropped(w[1..], b);
    }
  }

  /**
   The product-type slug keeps every non-whitespace character of the lower-cased
   input and hyphens only where the input had a hyphen or a whitespace run: two
   type names joined by one space slug to the first slug's stem, "-", the second's.
   */
  lemma {:induction false} SlugifyJoin(a: string, b: string, w: string)
    requires a != [] && !IsWhitespace(a[|a| - 1])
    requires b != [] && !IsWhitespace(b[0])
    requires w != [] && forall i | 0 <= i < |w| :: IsWhitespace(w[i])
    ensures SlugifyProductType(a + w + b)
         == CollapseWhitespace(LowerCase(a)) + "-" + SlugifyProductType(b)
  {
    var la, lw, lb := LowerCase(a), LowerCase(w), LowerCase(b);
    assert LowerCase(a + w + b) == la + lw + lb;
    CollapseRun(la, lw, lb);
  }
}
