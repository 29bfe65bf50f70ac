/** URL-path splitting as JavaScript does it: `path.split("/")` followed by
    `.filter(Boolean)`, together with an independent left-to-right scan that
    finds the first non-empty segment directly. */
module Paths {
  import opened Wrappers

  const Slash: char := '/'

  /** Every character of `s` is a slash (vacuously true of the empty string). */
  predicate AllSlashes(s: string) {
    forall i :: 0 <= i < |s| ==> s[i] == Slash
  }

  // ---------------------------------------------------------------------------
  // String.prototype.split with a one-character separator
  // ---------------------------------------------------------------------------

  /** The pieces of `s` between occurrences of `sep`, in order. As in
      JavaScript, there is always at least one piece (`"".split("/")` is
      `[""]`), and adjacent, leading or trailing separators yield empty pieces. */
  function Split(s: string, sep: char): (pieces: seq<string>)
    ensures |pieces| >= 1
    ensures forall i :: 0 <= i < |pieces| ==> sep !in pieces[i]
    decreases |s|
  {
    if |s| == 0 then [""]
    else
      var rest := Split(s[1..], sep);
      if s[0] == sep then [""] + rest
      else [[s[0]] + rest[0]] + rest[1..]
  }

  /** The inverse of `Split`: the pieces glued back together with `sep`. */
  function Join(pieces: seq<string>, sep: char): string
    requires |pieces| >= 1
    decreases |pieces|
  {
    if |pieces| == 1 then pieces[0]
    else pieces[0] + [sep] + Join(pieces[1..], sep)
  }

  /** Prepending a character to the first piece prepends it to the join. */
  lemma JoinConsHead(c: char, rest: seq<string>, sep: char)
    requires |rest| >= 1
    ensures Join([[c] + rest[0]] + rest[1..], sep) == [c] + Join(rest, sep)
  {
  }

  /** Splitting loses nothing: the separators between the pieces are exactly
      the separators that were removed. */
  lemma {:induction false} JoinSplit(s: string, sep: char)
    ensures Join(Split(s, sep), sep) == s
    decreases |s|
  {
    if |s| > 0 {
      var rest := Split(s[1..], sep);
      JoinSplit(s[1..], sep);
      if s[0] == sep {
        assert ([""] + rest)[1..] == rest;
      } else {
        JoinConsHead(s[0], rest, sep);
      }
      assert [s[0]] + s[1..] == s;
    }
  }

  /** Splitting a string that starts with a separator-free prefix `a` glues `a`
      onto the first piece of the remainder. */
  lemma {:induction false} SplitPrefix(a: string, t: string, sep: char)
    requires sep !in a
    ensures Split(a + t, sep) == [a + Split(t, sep)[0]] + Split(t, sep)[1..]
    decreases |a|
  {
    if |a| > 0 {
      assert (a + t)[1..] == a[1..] + t;
      assert (a + t)[0] == a[0];
      SplitPrefix(a[1..], t, sep);
      assert [a[0]] + (a[1..] + Split(t, sep)[0]) == a + Split(t, sep)[0];
    } else {
      var pieces := Split(t, sep);
      assert a + t == t;
      assert a + pieces[0] == pieces[0];
      assert [pieces[0]] + pieces[1..] == pieces;
    }
  }

  /** The other half of the round trip: pieces free of the separator are
      recovered exactly by splitting their join. */
  lemma {:induction false} SplitJoin(pieces: seq<string>, sep: char)
    requires |pieces| >= 1
    requires forall i :: 0 <= i < |pieces| ==> sep !in pieces[i]
    ensures Split(Join(pieces, sep), sep) == pieces
    decreases |pieces|
  {
    if |pieces| == 1 {
      SplitPrefix(pieces[0], "", sep);
      assert pieces[0] + "" == pieces[0];
    } else {
      var tail := Join(pieces[1..], sep);
      SplitJoin(pieces[1..], sep);
      assert ([sep] + tail)[1..] == tail;
      assert Split([sep] + tail, sep) == [""] + pieces[1..];
      SplitPrefix(pieces[0], [sep] + tail, sep);
      assert pieces[0] + [sep] + tail == pieces[0] + ([sep] + tail);
      assert pieces[0] + "" == pieces[0];
      assert [pieces[0]] + pieces[1..] == pieces;
    }
  }

  // ---------------------------------------------------------------------------
  // Array.prototype.filter(Boolean) on strings
  // ---------------------------------------------------------------------------

  /** The non-empty strings of `pieces`, in their original order (the empty
      string is the only falsy string). */
  function NonEmpty(pieces: seq<string>): (kept: seq<string>)
    ensures |kept| <= |pieces|
    ensures forall i :: 0 <= i < |kept| ==> kept[i] != ""
    ensures forall x :: x in kept <==> x in pieces && x != ""
    decreases |pieces|
  {
    if |pieces| == 0 then []
    else if pieces[0] == "" then NonEmpty(pieces[1..])
    else [pieces[0]] + NonEmpty(pieces[1..])
  }

  /** Filtering a single piece keeps it exactly when it is non-empty. */
  lemma NonEmptySingle(x: string)
    ensures NonEmpty([x]) == (if x == "" then [] else [x])
  {
  }

  /** Filtering distributes over concatenation. With `NonEmptySingle` this
      pins `NonEmpty` down on every list: the kept pieces appear in their
      original order, each as often as it occurs. */
  lemma {:induction false} NonEmptyAppend(a: seq<string>, b: seq<string>)
    ensures NonEmpty(a + b) == NonEmpty(a) + NonEmpty(b)
    decreases |a|
  {
    if |a| == 0 {
      assert a + b == b;
    } else {
      assert (a + b)[0] == a[0];
      assert (a + b)[1..] == a[1..] + b;
      NonEmptyAppend(a[1..], b);
      if a[0] != "" {
        assert [a[0]] + NonEmpty(a[1..] + b) == ([a[0]] + NonEmpty(a[1..])) + NonEmpty(b);
      }
    }
  }

  /** The non-empty `/`-separated segments of a path. */
  function Segments(path: string): (segs: seq<string>)
    ensures forall i :: 0 <= i < |segs| ==> segs[i] != "" && Slash !in segs[i]
  {
    var kept := NonEmpty(Split(path, Slash));
    assert forall i :: 0 <= i < |kept| ==> kept[i] in Split(path, Slash);
    kept
  }

  // ---------------------------------------------------------------------------
  // An independent reference: scanning for the first segment
  // ---------------------------------------------------------------------------

  /** The longest prefix of `s` that contains no slash. */
  function TakeSegment(s: string): (seg: string)
    ensures |seg| <= |s| && seg == s[..|seg|]
    ensures Slash !in seg
    ensures |seg| == |s| || s[|seg|] == Slash
    decreases |s|
  {
    if |s| == 0 || s[0] == Slash then ""
    else [s[0]] + TakeSegment(s[1..])
  }

  /** Skip leading slashes; the first segment is whatever follows up to the
      next slash. None when the path is made only of slashes. */
  function FirstSegment(s: string): (r: Option<string>)
    ensures r.None? <==> AllSlashes(s)
    ensures r.Some? ==> r.value != "" && Slash !in r.value
    decreases |s|
  {
    if |s| == 0 then None
    else if s[0] == Slash then
      var r := FirstSegment(s[1..]);
      assert AllSlashes(s) <==> AllSlashes(s[1..]) by {
        if AllSlashes(s[1..]) {
          forall i | 0 <= i < |s| ensures s[i] == Slash {
            if i > 0 { assert s[i] == s[1..][i - 1]; }
          }
        }
        if AllSlashes(s) {
          forall i | 0 <= i < |s[1..]| ensures s[1..][i] == Slash {
            assert s[1..][i] == s[i + 1];
          }
        }
      }
      r
    else Some(TakeSegment(s))
  }

  /** The first piece of a split on `/` is the slash-free prefix. */
  lemma {:induction false} SplitHead(s: string)
    ensures Split(s, Slash)[0] == TakeSegment(s)
    decreases |s|
  {
    if |s| > 0 && s[0] != Slash {
      SplitHead(s[1..]);
    }
  }

  /** `Segments` agrees with the reference scan: there is a segment exactly when
      the scan finds one, and the first segment is the one it finds. */
  lemma {:induction false} SegmentsHead(s: string)
    ensures |Segments(s)| > 0 <==> FirstSegment(s).Some?
    ensures |Segments(s)| > 0 ==> Segments(s)[0] == FirstSegment(s).value
    decreases |s|
  {
    if |s| > 0 {
      var rest := Split(s[1..], Slash);
      if s[0] == Slash {
        assert Split(s, Slash) == [""] + rest;
        assert ([""] + rest)[1..] == rest;
        assert Segments(s) == Segments(s[1..]);
        SegmentsHead(s[1..]);
      } else {
        SplitHead(s);
        var pieces := Split(s, Slash);
        assert pieces[0] == TakeSegment(s) != "";
        assert NonEmpty(pieces) == [pieces[0]] + NonEmpty(pieces[1..]);
      }
    }
  }

  /** A slash-free `seg` followed by the end or by a slash is taken whole. */
  lemma {:induction false} TakeSegmentOf(seg: string, rest: string)
    requires Slash !in seg
    requires rest == "" || rest[0] == Slash
    ensures TakeSegment(seg + rest) == seg
    decreases |seg|
  {
    if |seg| == 0 {
      assert seg + rest == rest;
    } else {
      assert (seg + rest)[1..] == seg[1..] + rest;
      TakeSegmentOf(seg[1..], rest);
      assert [seg[0]] + seg[1..] == seg;
    }
  }

  /** Leading slashes are skipped and everything after the first segment is
      ignored: `lead + seg + rest` has first segment `seg`. */
  lemma {:induction false} FirstSegmentOf(lead: string, seg: string, rest: string)
    requires AllSlashes(lead)
    requires seg != "" && Slash !in seg
    requires rest == "" || rest[0] == Slash
    ensures FirstSegment(lead + seg + rest) == Some(seg)
    decreases |lead|
  {
    var s := lead + seg + rest;
    if |lead| > 0 {
      assert s[0] == lead[0] == Slash;
      assert s[1..] == lead[1..] + seg + rest;
      FirstSegmentOf(lead[1..], seg, rest);
    } else {
      assert s == seg + rest;
      assert s[0] == seg[0] != Slash;
      TakeSegmentOf(seg, rest);
    }
  }
}
