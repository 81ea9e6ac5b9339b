/** The public-id extraction of `deleteImage`: the Cloudinary public id of an
    uploaded image is recovered from its delivery URL by splitting on '/',
    keeping the last two path segments, joining them with '/' again and
    cutting the result at its first '.'.  The string operations follow
    JavaScript's `String.prototype.split`, `Array.prototype.slice(-2)` and
    `Array.prototype.join` on a one-character separator. */
module UploadUtils {

  /** Number of occurrences of `c` in `s`. */
  function Occurrences(s: string, c: char): (n: nat)
    ensures n <= |s|
    ensures n == 0 <==> c !in s
  {
    if s == [] then 0
    else (if s[0] == c then 1 else 0) + Occurrences(s[1..], c)
  }

  /** JavaScript `s.split(sep)` for a one-character separator: every field
      is kept, empty ones included, and there is always at least one. */
  function Split(s: string, sep: char): (fields: seq<string>)
    ensures |fields| >= 1
    ensures forall i :: 0 <= i < |fields| ==> sep !in fields[i]
    ensures |fields| == Occurrences(s, sep) + 1
    decreases |s|
  {
    if s == [] then [""]
    else
      var rest := Split(s[1..], sep);
      if s[0] == sep then [""] + rest
      else [[s[0]] + rest[0]] + rest[1..]
  }

  /** JavaScript `xs.join(sep)`: the elements with one separator between
      neighbours and none at the ends. */
  function Join(xs: seq<string>, sep: char): (s: string)
    ensures |xs| >= 1 ==> xs[0] <= s
    ensures |xs| >= 2 ==> |xs[0]| < |s| && s[|xs[0]|] == sep
  {
    if |xs| == 0 then ""
    else if |xs| == 1 then xs[0]
    else xs[0] + [sep] + Join(xs[1..], sep)
  }

  /** JavaScript `xs.slice(-2)`: the start index is max(|xs| - 2, 0), so a
      list of one or two elements is kept whole. */
  function LastTwo<T>(xs: seq<T>): (r: seq<T>)
    ensures |r| == if |xs| < 2 then |xs| else 2
    ensures |xs| >= 2 ==> r == [xs[|xs| - 2], xs[|xs| - 1]]
    ensures |xs| < 2 ==> r == xs
  {
    if |xs| < 2 then xs else xs[|xs| - 2..]
  }

  /** The text before the first `sep` of `s` (all of `s` when there is none):
      `s.split(sep)[0]`. */
  function FirstField(s: string, sep: char): (f: string)
    ensures sep !in f
    ensures f <= s
    ensures |f| < |s| ==> s[|f|] == sep
    ensures sep !in s ==> f == s
  {
    FirstFieldCut(s, sep);
    Split(s, sep)[0]
  }

  /** The public id `deleteImage` hands to the image host:
      `imageUrl.split('/').slice(-2).join('/').split('.')[0]`. */
  function PublicId(url: string): (id: string)
    ensures '.' !in id
    ensures Occurrences(id, '/') <= 1
  {
    var tail := Join(LastTwo(Split(url, '/')), '/');
    JoinOccurrences(LastTwo(Split(url, '/')), '/');
    PrefixOccurrences(FirstField(tail, '.'), tail, '/');
    FirstField(tail, '.')
  }

  // ---------------------------------------------------------------------------
  // Lemmas

  /** Joining the fields of a split gives back the string: `split` loses
      nothing. */
  lemma {:induction false} JoinSplit(s: string, sep: char)
    ensures Join(Split(s, sep), sep) == s
    decreases |s|
  {
    if s != [] {
      var t := s[1..];
      assert s == [s[0]] + t;
      JoinSplit(t, sep);
      SplitCons(s[0], t, sep);
      if s[0] == sep {
        JoinPrepend("", Split(t, sep), sep);
      } else {
        JoinExtendFirst(s[0], Split(t, sep), sep);
      }
    }
  }

  /** Joining after putting one more field in front adds that field and a
      separator in front of the join. */
  lemma JoinPrepend(x: string, xs: seq<string>, sep: char)
    requires |xs| >= 1
    ensures Join([x] + xs, sep) == x + [sep] + Join(xs, sep)
  {
    assert ([x] + xs)[1..] == xs;
  }

  /** Joining after putting one more character in front of the first field
      puts that character in front of the join. */
  lemma JoinExtendFirst(c: char, xs: seq<string>, sep: char)
    requires |xs| >= 1
    ensures Join([[c] + xs[0]] + xs[1..], sep) == [c] + Join(xs, sep)
  {
    var ys := [[c] + xs[0]] + xs[1..];
    if |xs| >= 2 {
      assert ys[1..] == xs[1..];
    }
  }

  /** The converse round trip: a non-empty list of fields that do not contain
      the separator is recovered by splitting its join. */
  lemma {:induction false} SplitJoin(xs: seq<string>, sep: char)
    requires |xs| >= 1
    requires forall i :: 0 <= i < |xs| ==> sep !in xs[i]
    ensures Split(Join(xs, sep), sep) == xs
    decreases |xs|, |xs[0]|
  {
    if |xs[0]| > 0 {
      // peel the first character off the first field
      var c := xs[0][0];
      var ys := [xs[0][1..]] + xs[1..];
      PeelFirst(xs, sep);
      SplitJoin(ys, sep);
      JoinExtendFirst(c, ys, sep);
      SplitCons(c, Join(ys, sep), sep);
    } else if |xs| >= 2 {
      var rest := xs[1..];
      assert forall i :: 0 <= i < |rest| ==> rest[i] == xs[i + 1];
      SplitJoin(rest, sep);
      JoinPrepend(xs[0], rest, sep);
      SplitCons(sep, Join(rest, sep), sep);
      assert xs == [""] + rest;
    } else {
      assert xs == [""];
    }
  }

  /** Moving the first character of the first field out keeps every field
      free of the separator. */
  lemma PeelFirst(xs: seq<string>, sep: char)
    requires |xs| >= 1 && |xs[0]| > 0
    requires forall i :: 0 <= i < |xs| ==> sep !in xs[i]
    ensures var ys := [xs[0][1..]] + xs[1..];
      xs[0][0] != sep &&
      xs == [[xs[0][0]] + ys[0]] + ys[1..] &&
      forall i :: 0 <= i < |ys| ==> sep !in ys[i]
  {
    var ys := [xs[0][1..]] + xs[1..];
    assert xs[0] == [xs[0][0]] + ys[0];
    assert forall i :: 1 <= i < |ys| ==> ys[i] == xs[i];
  }

  /** One step of `split`: a leading separator closes an empty field, any
      other leading character opens the first field. */
  lemma SplitCons(c: char, t: string, sep: char)
    ensures c == sep ==> Split([c] + t, sep) == [""] + Split(t, sep)
    ensures c != sep ==>
              Split([c] + t, sep) == [[c] + Split(t, sep)[0]] + Split(t, sep)[1..]
  {
    assert ([c] + t)[1..] == t;
  }

  /** The first field of a split is the text before the first separator. */
  lemma {:induction false} FirstFieldCut(s: string, sep: char)
    ensures Split(s, sep)[0] <= s
    ensures |Split(s, sep)[0]| < |s| ==> s[|Split(s, sep)[0]|] == sep
    ensures sep !in s ==> Split(s, sep) == [s]
    decreases |s|
  {
    if s != [] {
      var t := s[1..];
      assert s == [s[0]] + t;
      FirstFieldCut(t, sep);
      SplitCons(s[0], t, sep);
      if sep !in s {
        assert sep !in t by { assert forall ch :: ch in t ==> ch in s; }
      }
    }
  }

  /** Joining fields free of the separator puts exactly one separator
      between neighbours. */
  lemma {:induction false} JoinOccurrences(xs: seq<string>, sep: char)
    requires forall i :: 0 <= i < |xs| ==> sep !in xs[i]
    ensures |xs| >= 1 ==> Occurrences(Join(xs, sep), sep) == |xs| - 1
    decreases |xs|
  {
    if |xs| >= 2 {
      var rest := xs[1..];
      assert forall i :: 0 <= i < |rest| ==> rest[i] == xs[i + 1];
      JoinOccurrences(rest, sep);
      JoinPrepend(xs[0], rest, sep);
      assert xs == [xs[0]] + rest;
      var tail := [sep] + Join(rest, sep);
      assert xs[0] + [sep] + Join(rest, sep) == xs[0] + tail;
      ConcatOccurrences(xs[0], tail, sep);
      ConcatOccurrences([sep], Join(rest, sep), sep);
      assert Occurrences([sep], sep) == 1;
      assert Occurrences(xs[0], sep) == 0;
    }
  }

  /** Occurrences add up over a concatenation. */
  lemma {:induction false} ConcatOccurrences(a: string, b: string, c: char)
    ensures Occurrences(a + b, c) == Occurrences(a, c) + Occurrences(b, c)
    decreases |a|
  {
    if a == [] {
      assert a + b == b;
    } else {
      ConcatOccurrences(a[1..], b, c);
      assert (a + b)[1..] == a[1..] + b;
    }
  }

  /** A prefix has no more occurrences than the whole. */
  lemma PrefixOccurrences(p: string, s: string, c: char)
    requires p <= s
    ensures Occurrences(p, c) <= Occurrences(s, c)
  {
    ConcatOccurrences(p, s[|p|..], c);
    assert p + s[|p|..] == s;
  }

  /** The public id is a prefix of the last two '/'-segments joined by '/',
      and it stops exactly at the first '.' of that text. */
  lemma PublicIdIsPrefix(url: string)
    ensures var tail := Join(LastTwo(Split(url, '/')), '/');
      PublicId(url) <= tail &&
      (|PublicId(url)| < |tail| ==> tail[|PublicId(url)|] == '.')
  {
  }

  /** When the last two segments hold no '.', the public id is exactly those
      two segments joined by '/'. */
  lemma PublicIdExact(url: string)
    requires |Split(url, '/')| >= 2
    requires var segs := Split(url, '/');
      '.' !in segs[|segs| - 2] && '.' !in segs[|segs| - 1]
    ensures var segs := Split(url, '/');
      PublicId(url) == segs[|segs| - 2] + "/" + segs[|segs| - 1]
  {
    var segs := Split(url, '/');
    var tail := [segs[|segs| - 2], segs[|segs| - 1]];
    assert Join(tail, '/') == segs[|segs| - 2] + "/" + segs[|segs| - 1] by {
      assert tail[1..] == [segs[|segs| - 1]];
    }
    assert '.' !in Join(tail, '/');
  }

  /** A URL with no '/' is one segment, which `slice(-2)` keeps: the public id
      is the whole URL up to its first '.'. */
  lemma PublicIdWithoutSlash(url: string)
    requires '/' !in url
    ensures PublicId(url) == FirstField(url, '.')
  {
    FirstFieldCut(url, '/');
  }

  /** A URL with at least one '/' yields an id taken from its last two
      segments only: everything before the second-to-last '/' is ignored. */
  lemma {:induction false} PublicIdIgnoresFolders(prefix: string, a: string, b: string)
    requires '/' !in a && '/' !in b
    ensures PublicId(prefix + "/" + a + "/" + b) == FirstField(a + "/" + b, '.')
  {
    var url := prefix + "/" + a + "/" + b;
    var pre := Split(prefix, '/');
    var xs := pre + [a, b];
    forall i | 0 <= i < |xs| ensures '/' !in xs[i] {
      if i >= |pre| { assert xs[i] == a || xs[i] == b; }
    }
    JoinAppend(pre, [a, b], '/');
    JoinSplit(prefix, '/');
    assert Join([a, b], '/') == a + "/" + b by { assert [a, b][1..] == [b]; }
    assert Join(xs, '/') == url;
    SplitJoin(xs, '/');
    assert LastTwo(xs) == [a, b];
  }

  /** Joining two non-empty lists puts one separator between their joins. */
  lemma {:induction false} JoinAppend(xs: seq<string>, ys: seq<string>, sep: char)
    requires |xs| >= 1 && |ys| >= 1
    ensures Join(xs + ys, sep) == Join(xs, sep) + [sep] + Join(ys, sep)
    decreases |xs|
  {
    if |xs| == 1 {
      assert (xs + ys)[1..] == ys;
    } else {
      JoinAppend(xs[1..], ys, sep);
      assert (xs + ys)[1..] == xs[1..] + ys;
    }
  }

  /** A delivery URL `<anything>/<folder>/<name>.<extension>` yields the id
      `<folder>/<name>`: the folder is kept and the extension dropped. */
  lemma PublicIdOfDeliveryUrl(prefix: string, folder: string, name: string, ext: string)
    requires '/' !in folder && '/' !in name && '/' !in ext
    requires '.' !in folder && '.' !in name
    ensures PublicId(prefix + "/" + folder + "/" + (name + "." + ext)) == folder + "/" + name
  {
    var file := name + "." + ext;
    NotInConcat(name, ".", '/');
    NotInConcat(name + ".", ext, '/');
    PublicIdIgnoresFolders(prefix, folder, file);
    var p := folder + "/" + name;
    NotInConcat(folder, "/", '.');
    NotInConcat(folder + "/", name, '.');
    FirstFieldOfPrefix(p, ext, '.');
    ConcatAssoc(folder + "/", name + ".", ext);
    ConcatAssoc(folder + "/", name, ".");
  }

  /** A character in neither part is not in the concatenation. */
  lemma NotInConcat(a: string, b: string, c: char)
    requires c !in a && c !in b
    ensures c !in a + b
  {
  }

  /** Regrouping a concatenation of three strings. */
  lemma ConcatAssoc(a: string, b: string, c: string)
    ensures a + (b + c) == a + b + c
  {
  }

  /** Cutting `p + [sep] + rest` at its first separator gives `p` when `p`
      holds no separator. */
  lemma FirstFieldOfPrefix(p: string, rest: string, sep: char)
    requires sep !in p
    ensures FirstField(p + [sep] + rest, sep) == p
  {
    var t := p + [sep] + rest;
    var f := FirstField(t, sep);
    assert t[|p|] == sep;
    assert |f| == |p|;
    assert t[..|p|] == p;
  }
}
