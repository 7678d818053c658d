/** The tab title computed from a file path: strip a trailing ".md", cut the
    path into its non-empty segments, keep the file name and up to `depth`
    parent folders, and join them with "/". */
module PathTitle {
  import opened JsNumber

  const Separator: char := '/'
  const MarkdownSuffix: string := ".md"

  function AsciiLower(c: char): char
  {
    if 'A' <= c <= 'Z' then (c as int + 32) as char else c
  }

  /** `filePath.toLowerCase().endsWith('.md')`. Only 'M', 'D' and '.' itself
      lower-case to 'm', 'd' or '.', so checking the last three characters
      one at a time is exact. */
  predicate HasMarkdownSuffix(path: string)
  {
    |path| >= 3 && forall i :: 0 <= i < 3 ==> AsciiLower(path[|path| - 3 + i]) == MarkdownSuffix[i]
  }

  /** getLeafName after the file path has been read off the leaf. */
  function LeafName(filePath: string): (r: string)
    ensures HasMarkdownSuffix(filePath) ==> |r| == |filePath| - 3 && filePath == r + filePath[|r|..]
    ensures !HasMarkdownSuffix(filePath) ==> r == filePath
  {
    if HasMarkdownSuffix(filePath) then filePath[..|filePath| - 3] else filePath
  }

  /** Stripping undoes appending ".md" in any letter case, and only once. */
  lemma LeafNameStripsSuffix(name: string, ext: string)
    requires |ext| == 3 && forall i :: 0 <= i < 3 ==> AsciiLower(ext[i]) == MarkdownSuffix[i]
    ensures LeafName(name + ext) == name
  {
    var p := name + ext;
    assert forall i :: 0 <= i < 3 ==> p[|p| - 3 + i] == ext[i];
    assert p[..|p| - 3] == name;
  }

  /** `parts.join('/')`. */
  function Join(parts: seq<string>): string
  {
    if |parts| == 0 then ""
    else if |parts| == 1 then parts[0]
    else parts[0] + [Separator] + Join(parts[1..])
  }

  predicate SeparatorFree(part: string) { Separator !in part }

  /** `s.split('/')`: the pieces between separators, empty ones included;
      the empty string splits into one empty piece. */
  function Split(s: string): (r: seq<string>)
    ensures |r| >= 1
    ensures forall k :: 0 <= k < |r| ==> SeparatorFree(r[k])
    ensures Join(r) == s
  {
    if s == [] then [""]
    else if s[0] == Separator then [""] + Split(s[1..])
    else
      var rest := Split(s[1..]);
      assert s == [s[0]] + s[1..];
      [[s[0]] + rest[0]] + rest[1..]
  }

  /** Splitting is the inverse of joining separator-free pieces. */
  lemma {:induction false} SplitJoin(parts: seq<string>)
    requires |parts| >= 1
    requires forall k :: 0 <= k < |parts| ==> SeparatorFree(parts[k])
    ensures Split(Join(parts)) == parts
  {
    if |parts| == 1 {
      SplitSeparatorFree(parts[0]);
    } else {
      SplitJoin(parts[1..]);
      SplitPrefixed(parts[0], Join(parts[1..]));
      assert [parts[0]] + parts[1..] == parts;
    }
  }

  lemma {:induction false} SplitSeparatorFree(p: string)
    requires SeparatorFree(p)
    ensures Split(p) == [p]
  {
    if p != [] {
      SplitSeparatorFree(p[1..]);
      assert [p[0]] + p[1..] == p;
    }
  }

  /** Split(p + "/" + s) puts p in front of the pieces of s. */
  lemma {:induction false} SplitPrefixed(p: string, s: string)
    requires SeparatorFree(p)
    ensures Split(p + [Separator] + s) == [p] + Split(s)
  {
    if p == [] {
      assert p + [Separator] + s == [Separator] + s;
      assert ([Separator] + s)[1..] == s;
    } else {
      var w := p + [Separator] + s;
      assert w[0] == p[0] && w[1..] == p[1..] + [Separator] + s;
      SplitPrefixed(p[1..], s);
      assert [p[0]] + p[1..] == p;
    }
  }

  /** `.filter(Boolean)` on strings: drop the empty ones, keep the order. */
  function NonEmptyParts(parts: seq<string>): (r: seq<string>)
    ensures |r| <= |parts|
    ensures forall k :: 0 <= k < |r| ==> r[k] != ""
    ensures forall x :: x in r <==> x in parts && x != ""
  {
    if parts == [] then []
    else if parts[0] == "" then NonEmptyParts(parts[1..])
    else [parts[0]] + NonEmptyParts(parts[1..])
  }

  /** The filter keeps every non-empty string as often as it occurs, and
      drops every empty one. */
  lemma {:induction false} NonEmptyPartsCounts(parts: seq<string>)
    ensures multiset(NonEmptyParts(parts)) == multiset(parts)["" := 0]
  {
    if parts != [] {
      var tail := parts[1..];
      NonEmptyPartsCounts(tail);
      assert parts == [parts[0]] + tail;
      assert multiset(parts) == multiset{parts[0]} + multiset(tail);
      if parts[0] == "" {
        assert multiset(parts)["" := 0] == multiset(tail)["" := 0];
      } else {
        assert NonEmptyParts(parts) == [parts[0]] + NonEmptyParts(tail);
        assert multiset(parts)["" := 0] == multiset{parts[0]} + multiset(tail)["" := 0];
      }
    }
  }

  lemma {:induction false} NonEmptyPartsKeepsAll(parts: seq<string>)
    requires forall k :: 0 <= k < |parts| ==> parts[k] != ""
    ensures NonEmptyParts(parts) == parts
  {
    if parts != [] {
      NonEmptyPartsKeepsAll(parts[1..]);
      assert [parts[0]] + parts[1..] == parts;
    }
  }

  /** Filtering a concatenation filters each half and keeps their order. */
  lemma {:induction false} NonEmptyPartsAppend(a: seq<string>, b: seq<string>)
    ensures NonEmptyParts(a + b) == NonEmptyParts(a) + NonEmptyParts(b)
  {
    if a != [] {
      assert (a + b)[0] == a[0] && (a + b)[1..] == a[1..] + b;
      NonEmptyPartsAppend(a[1..], b);
    } else {
      assert a + b == b;
    }
  }

  /** `path.split('/').filter(Boolean)`: the path segments. */
  function Segments(path: string): (r: seq<string>)
    ensures forall k :: 0 <= k < |r| ==> r[k] != "" && SeparatorFree(r[k])
  {
    var pieces := Split(path);
    var r := NonEmptyParts(pieces);
    assert forall k :: 0 <= k < |r| ==> r[k] in pieces;
    r
  }

  /** A path with no leading, trailing or doubled separator. */
  predicate WellFormedPath(s: string)
  {
    s != [] && s[0] != Separator && s[|s| - 1] != Separator &&
    forall i :: 0 <= i < |s| - 1 ==> !(s[i] == Separator && s[i + 1] == Separator)
  }

  lemma {:induction false} SplitWellFormedNoEmpty(s: string)
    requires WellFormedPath(s)
    ensures forall k :: 0 <= k < |Split(s)| ==> Split(s)[k] != ""
  {
    if |s| > 1 {
      var rest := Split(s[1..]);
      assert Split(s) == [[s[0]] + rest[0]] + rest[1..];
      if s[1] == Separator {
        var t := s[2..];
        assert WellFormedPath(t) by {
          assert |s| >= 3 && t[0] == s[2] && t[|t| - 1] == s[|s| - 1];
          forall i | 0 <= i < |t| - 1
            ensures !(t[i] == Separator && t[i + 1] == Separator)
          {
            assert t[i] == s[i + 2] && t[i + 1] == s[i + 3];
          }
        }
        SplitWellFormedNoEmpty(t);
        assert s[1..][1..] == t;
        assert rest[1..] == Split(t);
      } else {
        var t := s[1..];
        assert WellFormedPath(t) by {
          forall i | 0 <= i < |t| - 1
            ensures !(t[i] == Separator && t[i + 1] == Separator)
          {
            assert t[i] == s[i + 1] && t[i + 1] == s[i + 2];
          }
        }
        SplitWellFormedNoEmpty(t);
      }
    }
  }

  /** Joining non-empty, separator-free segments gives a well-formed path. */
  lemma {:induction false} JoinWellFormed(parts: seq<string>)
    requires |parts| >= 1
    requires forall k :: 0 <= k < |parts| ==> parts[k] != "" && SeparatorFree(parts[k])
    ensures WellFormedPath(Join(parts))
  {
    if |parts| > 1 {
      JoinWellFormed(parts[1..]);
      var p, t := parts[0], Join(parts[1..]);
      var s := p + [Separator] + t;
      forall i | 0 <= i < |s| - 1
        ensures !(s[i] == Separator && s[i + 1] == Separator)
      {
        if i < |p| - 1 {
          assert s[i] == p[i];
        } else if i == |p| - 1 {
          assert s[i] == p[i];
        } else if i == |p| {
          assert s[i + 1] == t[0];
        } else {
          assert s[i] == t[i - |p| - 1] && s[i + 1] == t[i - |p|];
        }
      }
    }
  }

  /** The segments join back to the path exactly when the path is empty or
      has no leading, trailing or doubled separator. */
  lemma SegmentsRoundTrip(path: string)
    ensures Join(Segments(path)) == path <==> path == "" || WellFormedPath(path)
  {
    if WellFormedPath(path) {
      SplitWellFormedNoEmpty(path);
      NonEmptyPartsKeepsAll(Split(path));
    } else if path != "" && Join(Segments(path)) == path {
      var r := Segments(path);
      if |r| != 0 {
        JoinWellFormed(r);
      }
    }
  }

  /** Joining two non-empty lists puts one separator between their joins. */
  lemma {:induction false} JoinConcat(x: seq<string>, y: seq<string>)
    requires |x| >= 1 && |y| >= 1
    ensures Join(x + y) == Join(x) + [Separator] + Join(y)
  {
    if |x| == 1 {
      assert (x + y)[1..] == y;
    } else {
      JoinConcat(x[1..], y);
      assert (x + y)[1..] == x[1..] + y;
    }
  }

  /** Splitting at one more separator concatenates the pieces of both sides. */
  lemma SplitConcat(a: string, b: string)
    ensures Split(a + [Separator] + b) == Split(a) + Split(b)
  {
    var x, y := Split(a), Split(b);
    JoinConcat(x, y);
    SplitJoin(x + y);
  }

  /** The segments of `a + "/" + b` are those of `a` followed by those of
      `b`; with Segments("") == [] and SegmentsSeparatorFree this fixes the
      segments of every path, however its separators are placed. */
  lemma SegmentsConcat(a: string, b: string)
    ensures Segments(a + [Separator] + b) == Segments(a) + Segments(b)
  {
    SplitConcat(a, b);
    NonEmptyPartsAppend(Split(a), Split(b));
  }

  /** A non-empty string with no separator is a single segment. */
  lemma SegmentsSeparatorFree(p: string)
    requires p != "" && SeparatorFree(p)
    ensures Segments(p) == [p]
  {
    SplitSeparatorFree(p);
  }

  /** The value `getTruncatedPath` uses: a non-finite depth counts as 0. */
  function EffectiveDepth(depth: Number): int
  {
    if IsFinite(depth) then depth.value else 0
  }

  /** How many segments the title shows: all of them when the depth is 0 or
      less, else the file name and up to `depth` parent folders. */
  function KeptCount(count: nat, depth: Number): (n: nat)
    ensures n <= count
  {
    var d := EffectiveDepth(depth);
    if d <= 0 || count <= d + 1 then count else d + 1
  }

  /** `parts.slice(Math.max(parts.length - (depth + 1), 0))`, or all of
      `parts` when the depth is 0 or less. */
  function KeptParts(parts: seq<string>, depth: Number): (r: seq<string>)
    ensures |r| == KeptCount(|parts|, depth)
    ensures parts == parts[..|parts| - |r|] + r
  {
    var d := EffectiveDepth(depth);
    if d <= 0 then parts
    else
      var sliceStart := if |parts| - (d + 1) > 0 then |parts| - (d + 1) else 0;
      assert parts == parts[..sliceStart] + parts[sliceStart..];
      parts[sliceStart..]
  }

  /** getTruncatedPath. */
  function TruncatedPath(parts: seq<string>, depth: Number): string
  {
    Join(KeptParts(parts, depth))
  }

  /** The full title of a leaf whose file path is `filePath`. */
  function TabTitle(filePath: string, depth: Number): string
  {
    TruncatedPath(Segments(LeafName(filePath)), depth)
  }

  /** Cut at its separators, a leaf's title gives back exactly the segments
      of its ".md"-stripped path that the depth keeps. */
  lemma TabTitleSegments(filePath: string, depth: Number)
    ensures Segments(TabTitle(filePath, depth)) == KeptParts(Segments(LeafName(filePath)), depth)
  {
    TruncatedPathSegments(Segments(LeafName(filePath)), depth);
  }

  /** `s` ends with `suffix`. */
  predicate EndsWith(s: string, suffix: string)
  {
    |suffix| <= |s| && s[|s| - |suffix|..] == suffix
  }

  /** Dropping leading segments drops a leading part of the joined string. */
  lemma {:induction false} JoinSuffix(parts: seq<string>, n: nat)
    requires n <= |parts|
    ensures EndsWith(Join(parts), Join(parts[n..]))
  {
    if n > 0 {
      JoinSuffix(parts[1..], n - 1);
      assert parts[1..][n - 1..] == parts[n..];
      if |parts| > 1 {
        var t, u := Join(parts[1..]), Join(parts[n..]);
        assert Join(parts) == (parts[0] + [Separator]) + t;
        assert t == t[..|t| - |u|] + u;
        assert Join(parts) == (parts[0] + [Separator] + t[..|t| - |u|]) + u;
      }
    }
  }

  lemma {:induction false} JoinEndsWithLast(parts: seq<string>)
    requires |parts| >= 1
    ensures EndsWith(Join(parts), parts[|parts| - 1])
  {
    if |parts| > 1 {
      JoinEndsWithLast(parts[1..]);
      var t, u := Join(parts[1..]), parts[|parts| - 1];
      assert Join(parts) == (parts[0] + [Separator]) + t;
      assert t == t[..|t| - |u|] + u;
      assert Join(parts) == (parts[0] + [Separator] + t[..|t| - |u|]) + u;
    }
  }

  /** The title is a trailing part of the full joined path, it ends with
      the file name whenever there is one, and no segments give the empty
      title. */
  lemma TruncatedPathIsSuffix(parts: seq<string>, depth: Number)
    ensures EndsWith(Join(parts), TruncatedPath(parts, depth))
    ensures |parts| >= 1 ==> EndsWith(TruncatedPath(parts, depth), parts[|parts| - 1])
    ensures parts == [] ==> TruncatedPath(parts, depth) == ""
  {
    var kept := KeptParts(parts, depth);
    var n := |parts| - |kept|;
    assert kept == parts[n..];
    JoinSuffix(parts, n);
    if |parts| >= 1 {
      assert |kept| >= 1 && kept[|kept| - 1] == parts[|parts| - 1];
      JoinEndsWithLast(kept);
    }
  }

  /** Cutting the title at its separators gives back exactly the segments
      that were kept: no segment is lost, merged or padded. */
  lemma TruncatedPathSegments(parts: seq<string>, depth: Number)
    requires forall k :: 0 <= k < |parts| ==> parts[k] != "" && SeparatorFree(parts[k])
    ensures Segments(TruncatedPath(parts, depth)) == KeptParts(parts, depth)
  {
    var kept := KeptParts(parts, depth);
    assert forall k :: 0 <= k < |kept| ==> kept[k] == parts[|parts| - |kept| + k];
    if kept == [] {
      assert Split(Join(kept)) == [""];
    } else {
      SplitJoin(kept);
      NonEmptyPartsKeepsAll(kept);
    }
  }

  /** With depth 0 or less, or a non-finite depth, the title is the whole path. */
  lemma TruncatedPathFullWhenNotPositive(parts: seq<string>, depth: Number)
    requires EffectiveDepth(depth) <= 0
    ensures TruncatedPath(parts, depth) == Join(parts)
  {
  }

  /** Depth 1 keeps the file name and its parent folder, and drops the
      folder above. */
  lemma TitleDepthOne(a: string, b: string, c: string)
    requires a != "" && b != "" && c != ""
    requires SeparatorFree(a) && SeparatorFree(b) && SeparatorFree(c)
    ensures TabTitle(a + "/" + b + "/" + c + ".md", Int(1)) == b + "/" + c
  {
    var parts := [a, b, c];
    var path := a + "/" + b + "/" + c;
    assert Join(parts[1..]) == b + "/" + c by {
      assert parts[1..][1..] == [c];
    }
    assert Join(parts) == path;
    assert Segments(path) == parts by {
      SplitJoin(parts);
      NonEmptyPartsKeepsAll(parts);
    }
    assert LeafName(path + ".md") == path by {
      LeafNameStripsSuffix(path, ".md");
    }
    assert KeptParts(parts, Int(1)) == parts[1..];
  }

  /** "notes/projects/alpha.md" at depth 1 is shown as "projects/alpha". */
  lemma TitleExampleDepthOne()
    ensures TabTitle("notes/projects/alpha.md", Int(1)) == "projects/alpha"
  {
    assert "notes/projects/alpha.md" == "notes" + "/" + "projects" + "/" + "alpha" + ".md";
    assert "projects/alpha" == "projects" + "/" + "alpha";
    TitleDepthOne("notes", "projects", "alpha");
  }

  /** A path with fewer segments than asked for is shown whole, unpadded. */
  lemma TitleExampleShortPath()
    ensures TabTitle("alpha.md", Int(1)) == "alpha"
  {
    assert LeafName("alpha.md") == "alpha";
    SplitSeparatorFree("alpha");
    NonEmptyPartsKeepsAll(["alpha"]);
  }

  /** Depth 0 shows the full path. */
  lemma TitleExampleDepthZero()
    ensures TabTitle("a/b/c/d.md", Int(0)) == "a/b/c/d"
  {
    var parts := ["a", "b", "c", "d"];
    assert LeafName("a/b/c/d.md") == "a/b/c/d";
    assert Join(parts) == "a/b/c/d";
    SplitJoin(parts);
    NonEmptyPartsKeepsAll(parts);
  }

  /** Leading, trailing and doubled separators leave no empty segment. */
  lemma SegmentsExample()
    ensures Segments("/a//b/") == ["a", "b"]
  {
    assert "/a//b/" == "" + [Separator] + "a//b/";
    assert "a//b/" == "a" + [Separator] + "/b/";
    assert "/b/" == "" + [Separator] + "b/";
    assert "b/" == "b" + [Separator] + "";
    SegmentsConcat("", "a//b/");
    SegmentsConcat("a", "/b/");
    SegmentsConcat("", "b/");
    SegmentsConcat("b", "");
    SegmentsSeparatorFree("a");
    SegmentsSeparatorFree("b");
    assert Segments("") == [];
  }
}
