/**
 * The split of a Google Cloud Storage locator "gs://<bucket>/<object>" into
 * its bucket and object names, as the command line does it for the input
 * and for the output file: the bucket is the text before the first "/"
 * once every "gs://" is removed, and the object name is what remains once
 * every "gs://<bucket>/" is removed.
 */
module Locator {
  import opened Cells

  datatype Located = Located(bucket: string, objectName: string)

  /** The split either gives the two names, or indexing the empty array
      that `split` returns raises an exception. */
  datatype Split = Parts(located: Located) | IndexOutOfBounds

  const Scheme: string := "gs://"

  /** Whether `t` occurs in `s`. */
  predicate Contains(s: string, t: string)
    decreases |s|
  {
    |s| >= |t| && (s[..|t|] == t || (s != [] && Contains(s[1..], t)))
  }

  /** Java's `String.replace`: every occurrence of `target`, scanning left to
      right without overlaps, is replaced. */
  function ReplaceAll(s: string, target: string, replacement: string): (r: string)
    requires |target| > 0
    decreases |s|
  {
    if |s| < |target| then s
    else if s[..|target|] == target then replacement + ReplaceAll(s[|target|..], target, replacement)
    else [s[0]] + ReplaceAll(s[1..], target, replacement)
  }

  /** The text before the first "/", or all of it when there is none. */
  function BeforeSlash(s: string): (r: string)
    ensures r <= s
    ensures '/' !in r
    ensures |r| < |s| ==> s[|r|] == '/'
  {
    if s == [] || s[0] == '/' then [] else [s[0]] + BeforeSlash(s[1..])
  }

  predicate AllSlashes(s: string)
  {
    forall i :: 0 <= i < |s| ==> s[i] == '/'
  }

  /** Element 0 of `s.split("/")`. Java drops the trailing empty strings of
      the split, so a non-empty text of slashes alone splits into an empty
      array and indexing it raises; the empty text splits into [""]. */
  function FirstSegment(s: string): (r: Option<string>)
    ensures r.None? <==> s != [] && AllSlashes(s)
    ensures r.Some? ==> r.value <= s && '/' !in r.value && (|r.value| < |s| ==> s[|r.value|] == '/')
  {
    if s != [] && AllSlashes(s) then None else Some(BeforeSlash(s))
  }

  /** The pieces of `s` between its '/' characters, empty pieces included. */
  function Pieces(s: string): (r: seq<string>)
    ensures |r| >= 1
    decreases |s|
  {
    var b := BeforeSlash(s);
    if |b| == |s| then [s] else [b] + Pieces(s[|b| + 1..])
  }

  /** A sequence of pieces without its trailing empty ones. */
  function DropTrailingEmpty(ps: seq<string>): (r: seq<string>)
    ensures r <= ps
  {
    if ps != [] && ps[|ps| - 1] == [] then DropTrailingEmpty(ps[..|ps| - 1]) else ps
  }

  /** Java's `s.split("/")`: a text with no '/' (the empty text included)
      is its own only piece; otherwise the pieces lose their trailing empty
      ones. */
  function JavaSplit(s: string): (r: seq<string>)
  {
    if '/' !in s then [s] else DropTrailingEmpty(Pieces(s))
  }

  /** The split as the command line writes it, for a locator that starts
      with "gs://". */
  function SplitLocator(s: string): (r: Split)
    requires Scheme <= s
  {
    match FirstSegment(ReplaceAll(s, Scheme, ""))
    case None => IndexOutOfBounds
    case Some(bucket) => Parts(Located(bucket, ReplaceAll(s, Scheme + bucket + "/", "")))
  }

  /** The split that removes the scheme and the bucket from the front only. */
  function SplitLocatorPrefix(s: string): (r: Located)
    requires Scheme <= s
  {
    var rest := s[|Scheme|..];
    var bucket := BeforeSlash(rest);
    Located(bucket, if |bucket| < |rest| then rest[|bucket| + 1..] else [])
  }

  function Join(bucket: string, objectName: string): (r: string)
  {
    Scheme + bucket + "/" + objectName
  }

  // ---------------------------------------------------------------------
  // Properties

  lemma {:induction false} ReplaceAbsent(s: string, target: string, replacement: string)
    requires |target| > 0 && !Contains(s, target)
    ensures ReplaceAll(s, target, replacement) == s
    decreases |s|
  {
    if |s| >= |target| {
      ReplaceAbsent(s[1..], target, replacement);
    }
  }

  lemma ReplaceFront(target: string, rest: string, replacement: string)
    requires |target| > 0
    ensures ReplaceAll(target + rest, target, replacement) == replacement + ReplaceAll(rest, target, replacement)
  {
    var s := target + rest;
    assert s[..|target|] == target && s[|target|..] == rest;
  }

  /** An occurrence in a suffix is an occurrence in the whole. */
  lemma {:induction false} ContainsSuffix(front: string, s: string, t: string)
    requires Contains(s, t)
    ensures Contains(front + s, t)
    decreases |front|
  {
    if front != [] {
      ContainsSuffix(front[1..], s, t);
      assert (front + s)[1..] == front[1..] + s;
      assert |front + s| >= |t|;
      assert Contains((front + s)[1..], t);
    } else {
      assert front + s == s;
    }
  }

  /** An occurrence of a longer text starting with `t` is an occurrence of `t`. */
  lemma {:induction false} ContainsPrefix(s: string, t: string, u: string)
    requires Contains(s, t + u)
    ensures Contains(s, t)
    decreases |s|
  {
    if s[..|t + u|] == t + u {
      assert s[..|t|] == (t + u)[..|t|];
    } else {
      ContainsPrefix(s[1..], t, u);
    }
  }

  lemma {:induction false} BeforeSlashOf(b: string, rest: string)
    requires '/' !in b
    ensures BeforeSlash(b + "/" + rest) == b
    decreases |b|
  {
    if b != [] {
      assert (b + "/" + rest)[1..] == b[1..] + "/" + rest;
      BeforeSlashOf(b[1..], rest);
    } else {
      assert (b + "/" + rest)[0] == '/';
    }
  }

  predicate AllEmpty(ps: seq<string>)
  {
    forall i :: 0 <= i < |ps| ==> |ps[i]| == 0
  }

  /** Dropping the trailing empty pieces leaves nothing exactly when every
      piece is empty. */
  lemma {:induction false} DropTrailingEmptyNil(ps: seq<string>)
    ensures |DropTrailingEmpty(ps)| == 0 <==> AllEmpty(ps)
  {
    if ps != [] && ps[|ps| - 1] == [] {
      var p := ps[..|ps| - 1];
      DropTrailingEmptyNil(p);
      if AllEmpty(p) {
        forall i | 0 <= i < |ps|
          ensures |ps[i]| == 0
        {
          if i < |p| {
            assert ps[i] == p[i];
          }
        }
      }
    }
  }

  /** Every piece is empty exactly when the text is made of slashes only. */
  lemma {:induction false} PiecesEmpty(s: string)
    ensures AllEmpty(Pieces(s)) <==> AllSlashes(s)
    decreases |s|
  {
    var b := BeforeSlash(s);
    if |b| == |s| {
      assert b == s && Pieces(s) == [s];
      if s != [] {
        assert s[0] == b[0] && s[0] != '/';
        assert |Pieces(s)[0]| != 0;
      }
    } else {
      var rest := s[|b| + 1..];
      PiecesEmpty(rest);
      assert Pieces(s) == [b] + Pieces(rest);
      if b == [] {
        assert s[0] == '/' && rest == s[1..];
        if AllSlashes(rest) {
          forall i | 0 <= i < |s|
            ensures s[i] == '/'
          {
            if i > 0 {
              assert s[i] == rest[i - 1];
            }
          }
        }
        if AllSlashes(s) {
          forall i | 0 <= i < |rest|
            ensures rest[i] == '/'
          {
            assert rest[i] == s[i + 1];
          }
        }
        if AllEmpty(Pieces(rest)) {
          forall i | 0 <= i < |Pieces(s)|
            ensures |Pieces(s)[i]| == 0
          {
            if i > 0 {
              assert Pieces(s)[i] == Pieces(rest)[i - 1];
            }
          }
        }
        if AllEmpty(Pieces(s)) {
          forall i | 0 <= i < |Pieces(rest)|
            ensures |Pieces(rest)[i]| == 0
          {
            assert Pieces(rest)[i] == Pieces(s)[i + 1];
          }
        }
      } else {
        assert s[0] == b[0] && s[0] != '/';
        assert Pieces(s)[0] == b;
      }
    }
  }

  /** The first segment is element 0 of Java's split on "/", and it is
      missing exactly when the split is empty. */
  lemma FirstSegmentIsSplitHead(s: string)
    ensures FirstSegment(s) == if |JavaSplit(s)| == 0 then None else Some(JavaSplit(s)[0])
  {
    var b := BeforeSlash(s);
    if '/' !in s {
      assert |b| == |s|;
      assert b == s;
      if s != [] {
        assert s[0] != '/';
      }
    } else {
      var ps := Pieces(s);
      assert |DropTrailingEmpty(ps)| == 0 <==> AllSlashes(s) by {
        PiecesEmpty(s);
        DropTrailingEmptyNil(ps);
      }
      assert ps[0] == b;
      assert JavaSplit(s) == DropTrailingEmpty(ps);
      if |DropTrailingEmpty(ps)| != 0 {
        assert DropTrailingEmpty(ps)[0] == ps[0];
        assert !AllSlashes(s);
        assert FirstSegment(s) == Some(b);
      }
    }
  }

  /** Removing every "gs://" from a locator in which it occurs only at the
      start leaves the bucket, then "/", then the object name. */
  lemma BucketOfJoin(bucket: string, objectName: string)
    requires bucket != [] && '/' !in bucket
    requires !Contains(bucket + "/" + objectName, Scheme)
    ensures FirstSegment(ReplaceAll(Join(bucket, objectName), Scheme, "")) == Some(bucket)
  {
    var tail := bucket + "/" + objectName;
    assert Join(bucket, objectName) == Scheme + tail;
    ReplaceFront(Scheme, tail, "");
    ReplaceAbsent(tail, Scheme, "");
    assert ReplaceAll(Join(bucket, objectName), Scheme, "") == tail;
    BeforeSlashOf(bucket, objectName);
    assert tail[0] == bucket[0] != '/';
  }

  /** Removing every "gs://<bucket>/" leaves the object name, when "gs://"
      does not occur in it. */
  lemma ObjectOfJoin(bucket: string, objectName: string)
    requires !Contains(objectName, Scheme)
    ensures ReplaceAll(Join(bucket, objectName), Scheme + bucket + "/", "") == objectName
  {
    var pattern := Scheme + bucket + "/";
    assert Join(bucket, objectName) == pattern + objectName;
    ReplaceFront(pattern, objectName, "");
    if Contains(objectName, pattern) {
      assert pattern == Scheme + (bucket + "/");
      ContainsPrefix(objectName, Scheme, bucket + "/");
    }
    ReplaceAbsent(objectName, pattern, "");
  }

  /** For a bucket name without "/" and a locator in which "gs://" occurs
      only at the start, the split gives back the bucket and the object. */
  lemma SplitLocatorJoin(bucket: string, objectName: string)
    requires bucket != [] && '/' !in bucket
    requires !Contains(bucket + "/" + objectName, Scheme)
    ensures SplitLocator(Join(bucket, objectName)) == Parts(Located(bucket, objectName))
  {
    BucketOfJoin(bucket, objectName);
    if Contains(objectName, Scheme) {
      ContainsSuffix(bucket + "/", objectName, Scheme);
    }
    ObjectOfJoin(bucket, objectName);
  }

  /** Text without the target's first character is kept as it is. */
  lemma {:induction false} ReplaceKeeps(front: string, rest: string, target: string, replacement: string)
    requires |target| > 0 && target[0] !in front
    ensures ReplaceAll(front + rest, target, replacement) == front + ReplaceAll(rest, target, replacement)
    decreases |front|
  {
    if front != [] {
      var s := front + rest;
      assert s[1..] == front[1..] + rest;
      if |s| >= |target| {
        assert s[..|target|][0] == front[0];
      }
      ReplaceKeeps(front[1..], rest, target, replacement);
    } else {
      assert front + rest == rest;
    }
  }

  /** Two occurrences, each followed by text without the target's first
      character, are both removed. */
  lemma RemoveBoth(target: string, a: string, b: string)
    requires |target| > 0 && target[0] !in a && target[0] !in b
    ensures ReplaceAll(target + (a + (target + b)), target, "") == a + b
  {
    ReplaceFront(target, a + (target + b), "");
    ReplaceKeeps(a, target + b, target, "");
    ReplaceFront(target, b, "");
    ReplaceWithout(b, target);
  }

  lemma ReplaceWithout(s: string, target: string)
    requires |target| > 0 && target[0] !in s
    ensures ReplaceAll(s, target, "") == s
  {
    ReplaceKeeps(s, [], target, "");
    assert s + [] == s;
  }

  /** A locator whose object name "a/gs://b/c" repeats the scheme and the
      bucket "b". */
  const Repeated: string := "gs://b/a/gs://b/c"

  lemma RepeatedBucket()
    ensures FirstSegment(ReplaceAll(Repeated, Scheme, "")) == Some("b")
  {
    assert Repeated == Scheme + ("b/a/" + (Scheme + "b/c"));
    RemoveBoth(Scheme, "b/a/", "b/c");
    assert "b/a/" + "b/c" == "b" + "/" + "a/b/c";
    BeforeSlashOf("b", "a/b/c");
    assert ("b/a/" + "b/c")[0] != '/';
  }

  lemma RepeatedObject()
    ensures ReplaceAll(Repeated, Scheme + "b" + "/", "") == "a/c"
  {
    var pattern := Scheme + "b" + "/";
    assert Repeated == pattern + ("a/" + (pattern + "c"));
    RemoveBoth(pattern, "a/", "c");
  }

  /** The split as written loses part of an object name that contains
      "gs://<bucket>/" again: every occurrence is removed, not only the
      leading one. */
  lemma SplitLocatorMangles()
    ensures SplitLocator(Repeated) == Parts(Located("b", "a/c"))
  {
    RepeatedBucket();
    RepeatedObject();
  }

  /** The corrected split keeps the repeated "gs://b/" in the object name. */
  lemma SplitLocatorPrefixKeeps()
    ensures SplitLocatorPrefix(Repeated) == Located("b", "a/gs://b/c")
  {
    assert Repeated == Join("b", "a/gs://b/c");
    SplitLocatorPrefixJoin("b", "a/gs://b/c");
  }

  /** The scheme holds a "/", so a text without one does not contain it. */
  lemma {:induction false} NoSlashNoScheme(s: string)
    requires '/' !in s
    ensures !Contains(s, Scheme)
    decreases |s|
  {
    if |s| >= |Scheme| {
      assert s[..|Scheme|][3] == s[3] != Scheme[3];
      NoSlashNoScheme(s[1..]);
    }
  }

  /** A locator with no "/" after the bucket: the pattern "gs://<bucket>/"
      does not occur, so the object name is the whole locator. */
  lemma SplitLocatorNoObject(bucket: string)
    requires bucket != [] && '/' !in bucket
    ensures SplitLocator(Scheme + bucket) == Parts(Located(bucket, Scheme + bucket))
  {
    var s := Scheme + bucket;
    ReplaceFront(Scheme, bucket, "");
    NoSlashNoScheme(bucket);
    ReplaceAbsent(bucket, Scheme, "");
    assert ReplaceAll(s, Scheme, "") == bucket;
    assert BeforeSlash(bucket) == bucket;
    assert bucket[0] != '/';
    assert FirstSegment(bucket) == Some(bucket);
    var pattern := Scheme + bucket + "/";
    assert |s| < |pattern|;
    assert ReplaceAll(s, pattern, "") == s;
  }

  /** The split that strips the front only gives back the bucket and the
      object name for every object name. */
  lemma SplitLocatorPrefixJoin(bucket: string, objectName: string)
    requires '/' !in bucket
    ensures SplitLocatorPrefix(Join(bucket, objectName)) == Located(bucket, objectName)
  {
    var s := Join(bucket, objectName);
    var rest := s[|Scheme|..];
    assert rest == bucket + "/" + objectName;
    BeforeSlashOf(bucket, objectName);
    assert rest[|bucket| + 1..] == objectName;
  }

  /** When "gs://" occurs only at the start of the locator, the split as
      written agrees with the corrected one. */
  lemma SplitsAgree(bucket: string, objectName: string)
    requires bucket != [] && '/' !in bucket
    requires !Contains(bucket + "/" + objectName, Scheme)
    ensures SplitLocator(Join(bucket, objectName)) == Parts(SplitLocatorPrefix(Join(bucket, objectName)))
  {
    SplitLocatorJoin(bucket, objectName);
    SplitLocatorPrefixJoin(bucket, objectName);
  }
}
