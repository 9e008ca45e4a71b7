/**
 * Cache keys (server/utils/cacheUtils.ts): a query is canonicalised by
 * sorting its keys and percent-encoding every `key=value` pair, and the
 * result is folded into the cache filename `{base}/{id}[-{q}].{ext}`.
 */
module CacheUtils {

  import opened Wrappers
  import opened KeyOrder
  import opened UriEncoding

  /**
   * A `Record<string, string>`: the keys in `Object.keys` order (each once)
   * and the value stored under each of them.
   */
  datatype Query = Query(keys: seq<string>, values: map<string, string>) {
    ghost predicate WellFormed() {
      Distinct(keys) && forall k :: k in values <==> k in keys
    }
  }

  // ---------------------------------------------------------------------
  // Building the canonical query

  /** The characters a canonical query is written in. */
  predicate QueryChar(c: char) {
    Unreserved(c) || c == '%' || c == '&' || c == '='
  }

  predicate IsQueryText(s: string) {
    forall i :: 0 <= i < |s| ==> QueryChar(s[i])
  }

  /** One `encodeURIComponent(k) + '=' + encodeURIComponent(v)` segment. */
  function Segment(k: string, v: string): (s: string)
    ensures '&' !in s && '=' in s && IsQueryText(s)
  {
    EncodedLacks(Encode(k), '&');
    EncodedLacks(Encode(v), '&');
    Encode(k) + "=" + Encode(v)
  }

  /** `keys.map(k => segment)`. */
  function Segments(ks: seq<string>, values: map<string, string>): (ps: seq<string>)
    requires forall i :: 0 <= i < |ks| ==> ks[i] in values
    ensures |ps| == |ks|
    ensures forall i :: 0 <= i < |ps| ==> ps[i] == Segment(ks[i], values[ks[i]])
  {
    if ks == [] then [] else [Segment(ks[0], values[ks[0]])] + Segments(ks[1..], values)
  }

  /** `Array.prototype.join(sep)`: the empty array joins to the empty string. */
  function Join(parts: seq<string>, sep: char): string {
    if parts == [] then ""
    else if |parts| == 1 then parts[0]
    else parts[0] + [sep] + Join(parts[1..], sep)
  }

  /** `canonicalQuery(query)`: sorted keys, one encoded pair per key, joined by `&`. */
  function CanonicalQuery(q: Query): (r: string)
    requires q.WellFormed()
    ensures r == "" <==> q.keys == []
    ensures IsQueryText(r)
  {
    SortedKeysHaveValues(q);
    var parts := Segments(Sort(q.keys), q.values);
    JoinQueryText(parts, '&');
    if parts == [] then "" else JoinNonEmpty(parts, '&'); Join(parts, '&')
  }

  /** `getCacheFilename`: the query part and its dash appear only for a non-empty query. */
  function GetCacheFilename(id: string, q: Query, ext: string, basePath: string): (r: string)
    requires q.WellFormed()
    ensures q.keys == [] ==> r == basePath + "/" + id + "." + ext
    ensures q.keys != [] ==> r == basePath + "/" + id + "-" + CanonicalQuery(q) + "." + ext
  {
    var cq := CanonicalQuery(q);
    if cq != "" then basePath + "/" + id + "-" + cq + "." + ext
    else basePath + "/" + id + "." + ext
  }

  // ---------------------------------------------------------------------
  // Reading a canonical query back

  /** `String.prototype.split(sep)`: the empty string splits into one empty part. */
  function Split(s: string, sep: char): (parts: seq<string>)
    ensures |parts| >= 1
  {
    if s == [] then [""]
    else
      var rest := Split(s[1..], sep);
      if s[0] == sep then [""] + rest else [[s[0]] + rest[0]] + rest[1..]
  }

  /** The text before and after the first `sep`, if there is one. */
  function CutAt(s: string, sep: char): Option<(string, string)> {
    if s == [] then None
    else if s[0] == sep then Some(([], s[1..]))
    else match CutAt(s[1..], sep)
      case None => None
      case Some((a, b)) => Some(([s[0]] + a, b))
  }

  /** A segment split at its first `=`, both halves decoded. */
  function ParseSegment(seg: string): Option<(string, string)> {
    match CutAt(seg, '=')
    case None => None
    case Some((a, b)) =>
      match (Decode(a), Decode(b))
      case (Some(k), Some(v)) => Some((k, v))
      case _ => None
  }

  function ParseSegments(segs: seq<string>): Option<seq<(string, string)>> {
    if segs == [] then Some([])
    else match (ParseSegment(segs[0]), ParseSegments(segs[1..]))
      case (Some(p), Some(ps)) => Some([p] + ps)
      case _ => None
  }

  /** The key/value pairs a canonical query spells, in the order it spells them. */
  function ParseQuery(s: string): Option<seq<(string, string)>> {
    if s == "" then Some([]) else ParseSegments(Split(s, '&'))
  }

  function KeysOf(es: seq<(string, string)>): (ks: seq<string>)
    ensures |ks| == |es| && forall i :: 0 <= i < |es| ==> ks[i] == es[i].0
  {
    if es == [] then [] else [es[0].0] + KeysOf(es[1..])
  }

  function Entries(ks: seq<string>, values: map<string, string>): (es: seq<(string, string)>)
    requires forall i :: 0 <= i < |ks| ==> ks[i] in values
    ensures |es| == |ks|
    ensures forall i :: 0 <= i < |ks| ==> es[i] == (ks[i], values[ks[i]])
  {
    if ks == [] then [] else [(ks[0], values[ks[0]])] + Entries(ks[1..], values)
  }

  // ---------------------------------------------------------------------
  // Lemmas

  lemma EncodedLacks(s: string, c: char)
    requires IsEncoded(s) && !Unreserved(c) && c != '%'
    ensures c !in s
  {
  }

  lemma JoinNonEmpty(parts: seq<string>, sep: char)
    requires parts != [] && forall i :: 0 <= i < |parts| ==> '=' in parts[i]
    ensures Join(parts, sep) != ""
  {
    if |parts| > 1 {
      assert Join(parts, sep) == parts[0] + [sep] + Join(parts[1..], sep);
    }
  }

  lemma {:induction false} JoinQueryText(parts: seq<string>, sep: char)
    requires QueryChar(sep) && forall i :: 0 <= i < |parts| ==> IsQueryText(parts[i])
    ensures IsQueryText(Join(parts, sep))
  {
    if |parts| > 1 {
      JoinQueryText(parts[1..], sep);
    }
  }

  lemma SortedKeysHaveValues(q: Query)
    requires q.WellFormed()
    ensures forall i :: 0 <= i < |Sort(q.keys)| ==> Sort(q.keys)[i] in q.values
  {
    SortIsAscendingPermutation(q.keys);
    forall i | 0 <= i < |Sort(q.keys)| ensures Sort(q.keys)[i] in q.values {
      assert Sort(q.keys)[i] in multiset(Sort(q.keys));
    }
  }

  lemma {:induction false} SplitNoSep(a: string, sep: char)
    requires sep !in a
    ensures Split(a, sep) == [a]
  {
    if a != [] {
      SplitNoSep(a[1..], sep);
      assert [a[0]] + a[1..] == a;
    }
  }

  lemma {:induction false} SplitAtSep(a: string, sep: char, b: string)
    requires sep !in a
    ensures Split(a + [sep] + b, sep) == [a] + Split(b, sep)
  {
    if a == [] {
      assert a + [sep] + b == [sep] + b;
      assert ([sep] + b)[1..] == b;
    } else {
      SplitAtSep(a[1..], sep, b);
      assert (a + [sep] + b)[1..] == a[1..] + [sep] + b;
      assert [a[0]] + a[1..] == a;
    }
  }

  /** Splitting the join of parts that hold no separator gives the parts back. */
  lemma {:induction false} SplitJoin(parts: seq<string>, sep: char)
    requires parts != [] && forall i :: 0 <= i < |parts| ==> sep !in parts[i]
    ensures Split(Join(parts, sep), sep) == parts
  {
    if |parts| == 1 {
      SplitNoSep(parts[0], sep);
    } else {
      SplitJoin(parts[1..], sep);
      SplitAtSep(parts[0], sep, Join(parts[1..], sep));
      assert [parts[0]] + parts[1..] == parts;
    }
  }

  lemma {:induction false} CutAtFirst(a: string, sep: char, b: string)
    requires sep !in a
    ensures CutAt(a + [sep] + b, sep) == Some((a, b))
  {
    if a == [] {
      assert a + [sep] + b == [sep] + b;
      assert ([sep] + b)[1..] == b;
    } else {
      CutAtFirst(a[1..], sep, b);
      assert (a + [sep] + b)[1..] == a[1..] + [sep] + b;
      assert [a[0]] + a[1..] == a;
    }
  }

  /** A segment is read back as the key and value it encodes. */
  lemma ParseSegmentOfSegment(k: string, v: string)
    ensures ParseSegment(Segment(k, v)) == Some((k, v))
  {
    EncodedLacks(Encode(k), '=');
    CutAtFirst(Encode(k), '=', Encode(v));
    assert Segment(k, v) == Encode(k) + ['='] + Encode(v);
    DecodeEncode(k);
    DecodeEncode(v);
  }

  lemma {:induction false} ParseSegmentsOfSegments(ks: seq<string>, values: map<string, string>)
    requires forall i :: 0 <= i < |ks| ==> ks[i] in values
    ensures ParseSegments(Segments(ks, values)) == Some(Entries(ks, values))
  {
    if ks != [] {
      ParseSegmentOfSegment(ks[0], values[ks[0]]);
      ParseSegmentsOfSegments(ks[1..], values);
      assert Segments(ks, values)[1..] == Segments(ks[1..], values);
    }
  }

  /**
   * Splitting a canonical query on `&` and each segment on its first `=`
   * recovers every key with its value, once each, keys in ascending order.
   */
  lemma CanonicalQueryParses(q: Query)
    requires q.WellFormed()
    ensures ParseQuery(CanonicalQuery(q)).Some?
    ensures var es := ParseQuery(CanonicalQuery(q)).value;
      && Ascending(KeysOf(es))
      && multiset(KeysOf(es)) == multiset(q.keys)
      && forall i :: 0 <= i < |es| ==> es[i].0 in q.values && es[i].1 == q.values[es[i].0]
  {
    SortedKeysHaveValues(q);
    SortIsAscendingPermutation(q.keys);
    var parts := Segments(Sort(q.keys), q.values);
    ParseSegmentsOfSegments(Sort(q.keys), q.values);
    var es := Entries(Sort(q.keys), q.values);
    assert KeysOf(es) == Sort(q.keys);
    if parts != [] {
      SplitJoin(parts, '&');
    }
  }

  lemma DistinctMultiplicity(s: seq<string>, x: string)
    requires Distinct(s)
    ensures multiset(s)[x] == if x in s then 1 else 0
  {
    if s != [] {
      assert s == [s[0]] + s[1..];
      assert Distinct(s[1..]) by {
        forall i, j | 0 <= i < j < |s[1..]| ensures s[1..][i] != s[1..][j] {
          assert s[1..][i] == s[i + 1] && s[1..][j] == s[j + 1];
        }
      }
      DistinctMultiplicity(s[1..], x);
      if x == s[0] {
        assert x !in s[1..] by {
          forall m | 0 <= m < |s[1..]| ensures s[1..][m] != x { assert s[1..][m] == s[m + 1]; }
        }
      }
    }
  }

  /**
   * The canonical query is determined by the key/value contents alone, and it
   * determines them: two queries canonicalise alike exactly when they hold the
   * same pairs, whatever order their keys were inserted in.
   */
  lemma {:induction false} CanonicalQueryIffSameValues(a: Query, b: Query)
    requires a.WellFormed() && b.WellFormed()
    ensures CanonicalQuery(a) == CanonicalQuery(b) <==> a.values == b.values
  {
    if a.values == b.values {
      assert multiset(a.keys) == multiset(b.keys) by {
        forall x ensures multiset(a.keys)[x] == multiset(b.keys)[x] {
          DistinctMultiplicity(a.keys, x);
          DistinctMultiplicity(b.keys, x);
        }
      }
      SortIgnoresOrder(a.keys, b.keys);
    }
    if CanonicalQuery(a) == CanonicalQuery(b) {
      CanonicalQueryParses(a);
      CanonicalQueryParses(b);
      var es := ParseQuery(CanonicalQuery(a)).value;
      forall k ensures k in a.values <==> k in b.values {
        assert k in a.values <==> k in multiset(a.keys);
        assert k in b.values <==> k in multiset(b.keys);
      }
      forall k | k in a.values ensures a.values[k] == b.values[k] {
        assert k in multiset(KeysOf(es));
        var i :| 0 <= i < |es| && KeysOf(es)[i] == k;
      }
    }
  }

  /** An empty query gives the empty string and the filename without a dash. */
  lemma EmptyQueryFilename(id: string, q: Query, ext: string, basePath: string)
    requires q.WellFormed() && q.values == map[]
    ensures CanonicalQuery(q) == ""
    ensures GetCacheFilename(id, q, ext, basePath) == basePath + "/" + id + "." + ext
  {
    assert forall i :: 0 <= i < |q.keys| ==> q.keys[i] in q.values;
  }

  /** The filename's basename: an id, then the canonical query behind a dash if there is one. */
  lemma FilenameParts(id: string, q: Query, ext: string, basePath: string)
    requires q.WellFormed()
    ensures var f := GetCacheFilename(id, q, ext, basePath);
      var name := id + (if q.keys == [] then "" else "-" + CanonicalQuery(q)) + "." + ext;
      f == basePath + "/" + name
  {
  }
}
