/** The vendored `simplestyle` codec for inline CSS (`style="k:v;k:v"`).
    `parseStyle` builds a Python dict, whose entries keep insertion order, and
    `formatStyle` writes the entries back in that order; a `Style` is therefore an
    ordered list of (key, value) entries with distinct keys. */
module SimpleStyle {
  import opened Wrappers
  import opened PyStr

  type Style = seq<(string, string)>

  /** `dict(...)` raises ValueError when a segment does not split into exactly two parts. */
  datatype StyleError = ValueError

  function Keys(d: Style): (ks: seq<string>)
    ensures |ks| == |d| && forall i :: 0 <= i < |d| ==> ks[i] == d[i].0
  {
    if |d| == 0 then [] else [d[0].0] + Keys(d[1..])
  }

  predicate Distinct(ks: seq<string>) {
    forall i, j :: 0 <= i < j < |ks| ==> ks[i] != ks[j]
  }

  predicate DistinctKeys(d: Style) {
    Distinct(Keys(d))
  }

  /** `d.get(k)`: the value of the first entry with key `k`. */
  function Get(d: Style, k: string): (r: Option<string>)
    ensures r.None? <==> k !in Keys(d)
  {
    if |d| == 0 then None
    else if d[0].0 == k then Some(d[0].1)
    else Get(d[1..], k)
  }

  /** With distinct keys, `Get` finds the one entry holding the key. */
  lemma {:induction false} GetAt(d: Style, i: nat)
    requires DistinctKeys(d) && i < |d|
    ensures Get(d, d[i].0) == Some(d[i].1)
  {
    if i > 0 {
      assert Keys(d)[0] != Keys(d)[i];
      assert DistinctKeys(d[1..]) by {
        assert Keys(d[1..]) == Keys(d)[1..];
      }
      GetAt(d[1..], i - 1);
    }
  }

  /** `d[k] = v`: an existing entry keeps its place and takes the new value; a new key
      is appended at the end. */
  function Put(d: Style, k: string, v: string): (r: Style)
    ensures Get(r, k) == Some(v)
    ensures forall k' :: k' != k ==> Get(r, k') == Get(d, k')
    ensures k in Keys(d) ==> Keys(r) == Keys(d)
    ensures k !in Keys(d) ==> r == d + [(k, v)]
  {
    if |d| == 0 then [(k, v)]
    else if d[0].0 == k then [(k, v)] + d[1..]
    else
      var rest := Put(d[1..], k, v);
      ConsPut(d[0], d[1..], k, v, rest);
      assert [d[0]] + d[1..] == d;
      [d[0]] + rest
  }

  /** Setting a key behind a different first entry leaves that entry in front. */
  lemma ConsPut(e: (string, string), d: Style, k: string, v: string, rest: Style)
    requires e.0 != k
    requires Get(rest, k) == Some(v)
    requires forall k' :: k' != k ==> Get(rest, k') == Get(d, k')
    requires k in Keys(d) ==> Keys(rest) == Keys(d)
    requires k !in Keys(d) ==> rest == d + [(k, v)]
    ensures Get([e] + rest, k) == Some(v)
    ensures forall k' :: k' != k ==> Get([e] + rest, k') == Get([e] + d, k')
    ensures k in Keys([e] + d) ==> Keys([e] + rest) == Keys([e] + d)
    ensures k !in Keys([e] + d) ==> [e] + rest == ([e] + d) + [(k, v)]
  {
    ConsGet(e, rest);
    ConsGet(e, d);
    ConsKeys(e, rest);
    ConsKeys(e, d);
    if k !in Keys(d) {
      ConsAppend(e, d, (k, v));
    }
  }

  lemma ConsAppend(e: (string, string), d: Style, x: (string, string))
    ensures [e] + (d + [x]) == ([e] + d) + [x]
  {
  }

  lemma ConsGet(e: (string, string), d: Style)
    ensures forall k :: Get([e] + d, k) == if e.0 == k then Some(e.1) else Get(d, k)
  {
    assert ([e] + d)[1..] == d;
  }

  lemma ConsKeys(e: (string, string), d: Style)
    ensures Keys([e] + d) == [e.0] + Keys(d)
  {
    assert ([e] + d)[1..] == d;
  }

  lemma {:induction false} PutEntries(d: Style, k: string, v: string)
    ensures forall e :: e in Put(d, k, v) ==> e in d || e == (k, v)
  {
    if |d| > 0 && d[0].0 != k {
      PutEntries(d[1..], k, v);
    }
  }

  lemma PutDistinct(d: Style, k: string, v: string)
    requires DistinctKeys(d)
    ensures DistinctKeys(Put(d, k, v))
  {
    if k !in Keys(d) {
      assert Keys(d + [(k, v)]) == Keys(d) + [k];
    }
  }

  lemma PutWellFormed(d: Style, k: string, v: string)
    requires WellFormed(d) && Token(k) && Token(v)
    ensures WellFormed(Put(d, k, v))
  {
    PutDistinct(d, k, v);
    PutEntries(d, k, v);
    var r := Put(d, k, v);
    forall i | 0 <= i < |r| ensures Token(r[i].0) && Token(r[i].1) {
      assert r[i] in r;
      if r[i] != (k, v) {
        var j :| 0 <= j < |d| && d[j] == r[i];
      }
    }
  }

  /** `del d[k]`, which the callers only do when `k` is present: the first entry with key
      `k` goes, and the others stay in their order. */
  function Delete(d: Style, k: string): (r: Style)
    requires k in Keys(d)
    ensures |r| == |d| - 1
    ensures forall k' :: k' != k ==> Get(r, k') == Get(d, k')
  {
    if d[0].0 == k then d[1..] else [d[0]] + Delete(d[1..], k)
  }

  /** `Delete` drops exactly the first entry with key `k` and keeps the order of the rest. */
  lemma {:induction false} DeleteRemovesFirst(d: Style, k: string)
    requires k in Keys(d)
    ensures exists j: nat :: RemovedAt(d, k, j, Delete(d, k))
  {
    if d[0].0 == k {
      assert Delete(d, k) == d[1..];
      RemovedFront(d, k);
    } else {
      assert Delete(d, k) == [d[0]] + Delete(d[1..], k);
      DeleteRemovesFirst(d[1..], k);
      RemovedCons(d, k, Delete(d[1..], k));
    }
  }

  /** `r` is `d` without its `j`-th entry, the first with key `k`. */
  predicate RemovedAt(d: Style, k: string, j: nat, r: Style) {
    j < |d| && d[j].0 == k && (forall i :: 0 <= i < j ==> d[i].0 != k) && r == d[..j] + d[j + 1..]
  }

  lemma RemovedFront(d: Style, k: string)
    requires |d| > 0 && d[0].0 == k
    ensures exists j: nat :: RemovedAt(d, k, j, d[1..])
  {
    assert RemovedAt(d, k, 0, d[1..]);
  }

  lemma RemovedCons(d: Style, k: string, r: Style)
    requires |d| > 0 && d[0].0 != k && exists j: nat :: RemovedAt(d[1..], k, j, r)
    ensures exists j: nat :: RemovedAt(d, k, j, [d[0]] + r)
  {
    var j: nat :| RemovedAt(d[1..], k, j, r);
    assert d[..j + 1] == [d[0]] + d[1..][..j];
    assert d[j + 2..] == d[1..][j + 1..];
    assert RemovedAt(d, k, j + 1, [d[0]] + r);
  }

  lemma {:induction false} DeleteEntries(d: Style, k: string)
    requires k in Keys(d)
    ensures forall e :: e in Delete(d, k) ==> e in d
  {
    if d[0].0 != k {
      DeleteEntries(d[1..], k);
    }
  }

  lemma {:induction false} DeleteDistinct(d: Style, k: string)
    requires k in Keys(d) && DistinctKeys(d)
    ensures Get(Delete(d, k), k).None? && DistinctKeys(Delete(d, k))
    ensures forall e :: e in Delete(d, k) ==> e in d
  {
    DeleteEntries(d, k);
    var e, t := d[0], d[1..];
    assert d == [e] + t;
    assert Keys(t) == Keys(d)[1..];
    if e.0 != k {
      DeleteDistinct(t, k);
      var r := Delete(t, k);
      DeleteCons(e, t, k);
      ConsKeys(e, r);
      ConsGet(e, r);
      FirstKeyNotAmong(d, r);
      ConsDistinct(e.0, Keys(r));
    } else {
      assert k == Keys(d)[0];
      forall i | 0 < i < |Keys(d)| ensures Keys(d)[i] != k { }
    }
  }

  /** With distinct keys, the first key is on no entry taken from the others. */
  lemma FirstKeyNotAmong(d: Style, r: Style)
    requires |d| > 0 && DistinctKeys(d) && forall x :: x in r ==> x in d[1..]
    ensures d[0].0 !in Keys(r)
  {
    forall j | 0 <= j < |r| ensures Keys(r)[j] != d[0].0 {
      assert r[j] in r;
      var m :| 0 <= m < |d[1..]| && d[1..][m] == r[j];
      assert d[m + 1] == r[j];
      KeysDistinctAt(d, 0, m + 1);
    }
  }

  lemma KeysDistinctAt(d: Style, a: nat, b: nat)
    requires DistinctKeys(d) && a < b < |d|
    ensures d[a].0 != d[b].0
  {
    assert Keys(d)[a] == d[a].0 && Keys(d)[b] == d[b].0;
  }

  lemma ConsDistinct(x: string, ks: seq<string>)
    requires Distinct(ks) && x !in ks
    ensures Distinct([x] + ks)
  {
    var xs := [x] + ks;
    forall i, j | 0 <= i < j < |xs| ensures xs[i] != xs[j] {
      assert xs[j] == ks[j - 1];
      if i > 0 {
        assert xs[i] == ks[i - 1];
      }
    }
  }

  /** Deleting a key just set leaves the entries as deleting it before would have. */
  lemma {:induction false} DeletePut(d: Style, k: string, v: string)
    ensures Delete(Put(d, k, v), k) == if k in Keys(d) then Delete(d, k) else d
  {
    if |d| > 0 && d[0].0 != k {
      var e, t := d[0], d[1..];
      assert d == [e] + t;
      var rest := Put(t, k, v);
      assert Put(d, k, v) == [e] + rest;
      DeletePut(t, k, v);
      assert k in Keys(rest);
      DeleteCons(e, rest, k);
      ConsKeys(e, t);
      if k in Keys(t) {
        DeleteCons(e, t, k);
      }
    }
  }

  lemma DeleteCons(e: (string, string), d: Style, k: string)
    requires e.0 != k && k in Keys(d)
    ensures k in Keys([e] + d) && Delete([e] + d, k) == [e] + Delete(d, k)
  {
    ConsKeys(e, d);
    assert ([e] + d)[0] == e && ([e] + d)[1..] == d;
  }

  /** A key or value that survives a format/parse round trip: no separator and no
      surrounding white space. */
  predicate Token(s: string) {
    ';' !in s && ':' !in s && Stripped(s)
  }

  /** The dicts `parseStyle` can return. */
  predicate WellFormed(d: Style) {
    DistinctKeys(d) && forall i :: 0 <= i < |d| ==> Token(d[i].0) && Token(d[i].1)
  }

  lemma DeleteWellFormed(d: Style, k: string)
    requires WellFormed(d) && k in Keys(d)
    ensures WellFormed(Delete(d, k)) && Get(Delete(d, k), k).None?
  {
    DeleteDistinct(d, k);
    var r := Delete(d, k);
    forall i | 0 <= i < |r| ensures Token(r[i].0) && Token(r[i].1) {
      assert r[i] in r;
      var j :| 0 <= j < |d| && d[j] == r[i];
    }
  }

  /** A `;`-segment that is not blank yet does not split into exactly two parts on `:`. */
  predicate MalformedSegment(segment: string) {
    !AllSpace(segment) && |Split(segment, ':')| != 2
  }

  function StripAll(xs: seq<string>): (r: seq<string>)
    ensures |r| == |xs| && forall k :: 0 <= k < |xs| ==> r[k] == Strip(xs[k])
  {
    seq(|xs|, k requires 0 <= k < |xs| => Strip(xs[k]))
  }

  /** The list comprehension inside `parseStyle`: every segment that is not blank, split
      on `:`, each part stripped. */
  function Fields(segments: seq<string>): (r: seq<seq<string>>)
    ensures (forall i :: 0 <= i < |segments| ==> ';' !in segments[i]) ==>
              forall m, n :: 0 <= m < |r| && 0 <= n < |r[m]| ==> Token(r[m][n])
    ensures (exists m :: 0 <= m < |r| && |r[m]| != 2) <==>
              (exists i :: 0 <= i < |segments| && MalformedSegment(segments[i]))
  {
    if |segments| == 0 then []
    else
      var rest := Fields(segments[1..]);
      assert forall i :: 0 < i < |segments| ==> segments[i] == segments[1..][i - 1];
      if AllSpace(segments[0]) then rest
      else
        var r := [StripAll(Split(segments[0], ':'))] + rest;
        assert forall m :: 0 < m < |r| ==> r[m] == rest[m - 1];
        assert (exists i :: 0 <= i < |segments| && MalformedSegment(segments[i])) ==>
                 (exists m :: 0 <= m < |r| && |r[m]| != 2) by {
          if exists i :: 0 <= i < |segments| && MalformedSegment(segments[i]) {
            var i :| 0 <= i < |segments| && MalformedSegment(segments[i]);
            if i > 0 {
              assert MalformedSegment(segments[1..][i - 1]);
              var m :| 0 <= m < |rest| && |rest[m]| != 2;
              assert |r[m + 1]| != 2;
            } else {
              assert |r[0]| != 2;
            }
          }
        }
        r
  }

  /** The number of non-blank segments among the first `n`: where the field of the
      `n`-th segment sits in `Fields`. */
  function NonBlankBefore(segments: seq<string>, n: nat): nat
    requires n <= |segments|
  {
    if n == 0 then 0 else NonBlankBefore(segments, n - 1) + (if AllSpace(segments[n - 1]) then 0 else 1)
  }

  lemma {:induction false} NonBlankBeforeShift(segments: seq<string>, n: nat)
    requires 1 <= n <= |segments|
    ensures NonBlankBefore(segments, n) == NonBlankBefore(segments, 1) + NonBlankBefore(segments[1..], n - 1)
    decreases n
  {
    if n > 1 {
      NonBlankBeforeShift(segments, n - 1);
      assert segments[1..][n - 2] == segments[n - 1];
    }
  }

  /** What the comprehension builds: one field per non-blank segment, in the order of
      the segments, and that field is the segment split on `:` with every part stripped.
      Blank segments give no field. */
  lemma {:induction false} FieldsMeaning(segments: seq<string>)
    ensures |Fields(segments)| == NonBlankBefore(segments, |segments|)
    ensures forall i :: 0 <= i < |segments| && !AllSpace(segments[i]) ==>
              NonBlankBefore(segments, i) < |Fields(segments)| &&
              Fields(segments)[NonBlankBefore(segments, i)] == StripAll(Split(segments[i], ':'))
  {
    if |segments| > 0 {
      var t := segments[1..];
      var h := FieldsCons(segments);
      var r, rest := Fields(segments), Fields(t);
      FieldsMeaning(t);
      NonBlankBeforeShift(segments, |segments|);
      forall i | 0 <= i < |segments| && !AllSpace(segments[i])
        ensures NonBlankBefore(segments, i) < |r| && r[NonBlankBefore(segments, i)] == StripAll(Split(segments[i], ':'))
      {
        if i > 0 {
          assert segments[i] == t[i - 1];
          LaterField(segments, i, h, r, rest);
        }
      }
    }
  }

  /** The field of a later segment sits in `rest`, after the field the first segment
      gives, if any. */
  lemma LaterField(segments: seq<string>, i: nat, h: seq<seq<string>>, r: seq<seq<string>>, rest: seq<seq<string>>)
    requires 0 < i < |segments| && r == h + rest && |h| == NonBlankBefore(segments, 1)
    requires NonBlankBefore(segments[1..], i - 1) < |rest|
    requires rest[NonBlankBefore(segments[1..], i - 1)] == StripAll(Split(segments[i], ':'))
    ensures NonBlankBefore(segments, i) < |r| && r[NonBlankBefore(segments, i)] == StripAll(Split(segments[i], ':'))
  {
    NonBlankBeforeShift(segments, i);
    var n := NonBlankBefore(segments[1..], i - 1);
    assert r[|h| + n] == rest[n];
  }

  /** `Fields` takes a field from the first segment unless it is blank, then goes on. */
  lemma FieldsCons(segments: seq<string>) returns (h: seq<seq<string>>)
    requires |segments| > 0
    ensures |h| == NonBlankBefore(segments, 1)
    ensures |h| == 1 ==> h[0] == StripAll(Split(segments[0], ':'))
    ensures Fields(segments) == h + Fields(segments[1..])
  {
    h := if AllSpace(segments[0]) then [] else [StripAll(Split(segments[0], ':'))];
  }

  /** A one-entry style with white space around its key and value, such as
      `" fill : red "`, parses to that entry with the white space stripped. */
  lemma ParseSpaced(a: string, k: string, b: string, c: string, v: string, e: string)
    requires Token(k) && Token(v)
    requires AllSpace(a) && AllSpace(b) && AllSpace(c) && AllSpace(e)
    ensures ParseStyle(Some(a + k + b + ":" + c + v + e)) == Ok([(k, v)])
  {
    var text := a + k + b + ":" + c + v + e;
    SpacedSegment(a, k, b, c, v, e);
    SpacedField(a, k, b, c, v, e);
    assert Fields([text]) == [StripAll(Split(text, ':'))] + Fields([]);
    assert StyleFields(text) == [[k, v]];
    assert FromPairs([[k, v]], []) == FromPairs([], Put([], k, v));
  }

  /** Such a style is one segment, and not a blank one. */
  lemma SpacedSegment(a: string, k: string, b: string, c: string, v: string, e: string)
    requires Token(k) && Token(v)
    requires AllSpace(a) && AllSpace(b) && AllSpace(c) && AllSpace(e)
    ensures Split(a + k + b + ":" + c + v + e, ';') == [a + k + b + ":" + c + v + e]
    ensures !AllSpace(a + k + b + ":" + c + v + e)
  {
    var key, value := a + k + b, c + v + e;
    var text := a + k + b + ":" + c + v + e;
    assert text == key + [':'] + value;
    NoSeparatorAround(a, k, b, ';');
    NoSeparatorAround(c, v, e, ';');
    assert ';' !in text;
    SplitNoSeparator(text, ';');
    assert text[|key|] == ':';
  }

  /** Its segment splits on `:` into the key and the value, each with its white space. */
  lemma SpacedField(a: string, k: string, b: string, c: string, v: string, e: string)
    requires Token(k) && Token(v)
    requires AllSpace(a) && AllSpace(b) && AllSpace(c) && AllSpace(e)
    ensures StripAll(Split(a + k + b + ":" + c + v + e, ':')) == [k, v]
  {
    var key, value := a + k + b, c + v + e;
    NoSeparatorAround(a, k, b, ':');
    NoSeparatorAround(c, v, e, ':');
    SplitTwo(key, value, ':');
    assert a + k + b + ":" + c + v + e == key + [':'] + value;
    StripSpaced(a, k, b);
    StripSpaced(c, v, e);
    StripAllTwo(key, value);
  }

  lemma StripAllTwo(x: string, y: string)
    ensures StripAll([x, y]) == [Strip(x), Strip(y)]
  {
    var r := StripAll([x, y]);
    assert r[0] == Strip(x) && r[1] == Strip(y);
  }

  lemma SplitTwo(x: string, y: string, sep: char)
    requires sep !in x && sep !in y
    ensures Split(x + [sep] + y, sep) == [x, y]
  {
    SplitAfterPiece(x, y, sep);
    SplitNoSeparator(y, sep);
  }

  /** A separator in neither `x` nor the white space around it is not in the whole. */
  lemma NoSeparatorAround(a: string, x: string, b: string, sep: char)
    requires AllSpace(a) && AllSpace(b) && sep !in x && !IsSpace(sep)
    ensures sep !in a + x + b
  {
  }

  function StyleFields(text: string): seq<seq<string>> {
    Fields(Split(text, ';'))
  }

  /** `dict(pairs)` added to `acc`, pair by pair. */
  function FromPairs(pairs: seq<seq<string>>, acc: Style): (r: Result<Style, StyleError>)
    ensures r.Ok? <==> forall m :: 0 <= m < |pairs| ==> |pairs[m]| == 2
  {
    if |pairs| == 0 then Ok(acc)
    else if |pairs[0]| != 2 then Err(ValueError)
    else
      assert forall m :: 0 < m < |pairs| ==> pairs[m] == pairs[1..][m - 1];
      FromPairs(pairs[1..], Put(acc, pairs[0][0], pairs[0][1]))
  }

  lemma {:induction false} FromPairsWellFormed(pairs: seq<seq<string>>, acc: Style)
    requires FromPairs(pairs, acc).Ok? && WellFormed(acc)
    requires forall m, n :: 0 <= m < |pairs| && 0 <= n < |pairs[m]| ==> Token(pairs[m][n])
    ensures WellFormed(FromPairs(pairs, acc).value)
  {
    if |pairs| > 0 {
      PutWellFormed(acc, pairs[0][0], pairs[0][1]);
      assert forall m :: 0 < m < |pairs| ==> pairs[m] == pairs[1..][m - 1];
      FromPairsWellFormed(pairs[1..], Put(acc, pairs[0][0], pairs[0][1]));
    }
  }

  /** `parseStyle(s)`: `None` gives the empty dict; otherwise every non-blank
      `;`-segment must be `key:value`, and both halves are stripped. */
  function ParseStyle(s: Option<string>): (r: Result<Style, StyleError>)
    ensures s.None? ==> r == Ok([])
    ensures r.Ok? ==> WellFormed(r.value)
  {
    match s
    case None => Ok([])
    case Some(text) =>
      var fields := StyleFields(text);
      var r := FromPairs(fields, []);
      if r.Ok? then
        assert WellFormed([]);
        var segments := Split(text, ';');
        assert forall i :: 0 <= i < |segments| ==> ';' !in segments[i];
        assert forall m, n :: 0 <= m < |fields| && 0 <= n < |fields[m]| ==> Token(fields[m][n]);
        FromPairsWellFormed(fields, []);
        r
      else r
  }

  /** `parseStyle` fails exactly when some non-blank segment does not split into two
      parts on `:` (`"a:b:c"`, `"a"`). */
  lemma ParseStyleRejects(text: string)
    ensures ParseStyle(Some(text)).Err? <==>
              exists i :: 0 <= i < |Split(text, ';')| && MalformedSegment(Split(text, ';')[i])
  {
    var segments := Split(text, ';');
    var fields := Fields(segments);
    assert fields == StyleFields(text);
    assert ParseStyle(Some(text)).Err? <==> exists m :: 0 <= m < |fields| && |fields[m]| != 2;
    assert (exists m :: 0 <= m < |fields| && |fields[m]| != 2) <==>
           (exists i :: 0 <= i < |segments| && MalformedSegment(segments[i]));
    if ParseStyle(Some(text)).Err? {
      var i :| 0 <= i < |segments| && MalformedSegment(segments[i]);
      assert MalformedSegment(Split(text, ';')[i]);
    }
  }

  function Entries(d: Style): (es: seq<string>)
    ensures |es| == |d|
    ensures forall i :: 0 <= i < |d| ==> es[i] == d[i].0 + ":" + d[i].1
  {
    seq(|d|, i requires 0 <= i < |d| => d[i].0 + ":" + d[i].1)
  }

  /** `formatStyle(d)`: `key:value` for every entry, in order, joined by `;`. */
  function FormatStyle(d: Style): (r: string)
    ensures |d| == 0 ==> r == ""
    ensures |d| > 0 && (forall i :: 0 <= i < |d| ==> Token(d[i].0) && Token(d[i].1)) ==>
              Split(r, ';') == Entries(d)
  {
    var es := Entries(d);
    if |d| > 0 && forall i :: 0 <= i < |d| ==> Token(d[i].0) && Token(d[i].1) then
      SplitJoin(es, ';');
      Join(es, ';')
    else Join(es, ';')
  }

  /** The (key, value) entries of `d` as the two-element lists `parseStyle` builds. */
  function Pairs(d: Style): (ps: seq<seq<string>>)
    ensures |ps| == |d| && forall i :: 0 <= i < |d| ==> ps[i] == [d[i].0, d[i].1]
  {
    seq(|d|, i requires 0 <= i < |d| => [d[i].0, d[i].1])
  }

  /** An entry `k:v` of tokens is a non-blank segment that splits back into `[k, v]`. */
  lemma EntryFields(k: string, v: string)
    requires Token(k) && Token(v)
    ensures !AllSpace(k + ":" + v)
    ensures StripAll(Split(k + ":" + v, ':')) == [k, v]
  {
    var s := k + ":" + v;
    assert s[|k|] == ':' && !IsSpace(':');
    SplitAfterPiece(k, v, ':');
    SplitNoSeparator(v, ':');
    assert Split(s, ':') == [k, v];
    var r := StripAll([k, v]);
    assert r[0] == Strip(k) == k && r[1] == Strip(v) == v;
    PairOf(r, k, v);
  }

  lemma PairOf(r: seq<string>, a: string, b: string)
    requires |r| == 2 && r[0] == a && r[1] == b
    ensures r == [a, b]
  {
  }

  lemma {:induction false} FieldsOfEntries(d: Style)
    requires forall i :: 0 <= i < |d| ==> Token(d[i].0) && Token(d[i].1)
    ensures Fields(Entries(d)) == Pairs(d)
  {
    if |d| > 0 {
      EntryFields(d[0].0, d[0].1);
      assert Entries(d)[1..] == Entries(d[1..]);
      FieldsOfEntries(d[1..]);
      assert Pairs(d) == [Pairs(d)[0]] + Pairs(d[1..]);
    }
  }

  /** The first key of `d` is not among those of `acc` when `acc + d` has distinct keys. */
  lemma FreshKey(acc: Style, d: Style)
    requires DistinctKeys(acc + d) && |d| > 0
    ensures d[0].0 !in Keys(acc)
  {
    var ks := Keys(acc + d);
    forall i | 0 <= i < |acc| ensures Keys(acc)[i] != d[0].0 {
      assert ks[i] == acc[i].0 && ks[|acc|] == d[0].0;
    }
  }

  lemma {:induction false} FromPairsAppends(d: Style, acc: Style)
    requires DistinctKeys(acc + d)
    ensures FromPairs(Pairs(d), acc) == Ok(acc + d)
  {
    if |d| > 0 {
      var acc' := acc + [d[0]];
      assert acc' + d[1..] == acc + d;
      FreshKey(acc, d);
      assert Put(acc, d[0].0, d[0].1) == acc';
      var ps := Pairs(d);
      assert ps[0] == [d[0].0, d[0].1];
      assert ps[1..] == Pairs(d[1..]);
      assert FromPairs(ps, acc) == FromPairs(ps[1..], Put(acc, ps[0][0], ps[0][1]));
      FromPairsAppends(d[1..], acc');
    } else {
      assert acc + d == acc;
    }
  }

  /** Round trip: parsing the formatted style of a well-formed dict gives the dict back,
      with its entries in the same order. */
  lemma ParseFormat(d: Style)
    requires WellFormed(d)
    ensures ParseStyle(Some(FormatStyle(d))) == Ok(d)
  {
    if |d| == 0 {
      assert Split("", ';') == [""];
      assert AllSpace("");
      assert StyleFields("") == [];
    } else {
      var text := FormatStyle(d);
      assert Split(text, ';') == Entries(d);
      FieldsOfEntries(d);
      assert StyleFields(text) == Pairs(d);
      assert [] + d == d;
      FromPairsAppends(d, []);
    }
  }

  /** Parsing is idempotent through the formatter: a parsed style, written out and read
      again, is the same dict. */
  lemma ParseFormatParse(s: Option<string>)
    requires ParseStyle(s).Ok?
    ensures ParseStyle(Some(FormatStyle(ParseStyle(s).value))) == ParseStyle(s)
  {
    ParseFormat(ParseStyle(s).value);
  }

  lemma {:induction false} FieldsOfBlank(segments: seq<string>)
    requires forall i :: 0 <= i < |segments| ==> AllSpace(segments[i])
    ensures Fields(segments) == []
  {
    if |segments| > 0 {
      FieldsOfBlank(segments[1..]);
    }
  }

  /** Segments that are empty or only white space are skipped, so a style made only of
      white space and `;` (the empty string among them) parses to the empty dict. */
  lemma BlankStyleIsEmpty(text: string)
    requires forall k :: 0 <= k < |text| ==> IsSpace(text[k]) || text[k] == ';'
    ensures ParseStyle(Some(text)) == Ok([])
  {
    var segments := Split(text, ';');
    forall i | 0 <= i < |segments| ensures AllSpace(segments[i]) {
      forall k | 0 <= k < |segments[i]| ensures IsSpace(segments[i][k]) {
        var c := segments[i][k];
        assert c in segments[i];
        assert c in text;
        var k' :| 0 <= k' < |text| && text[k'] == c;
      }
    }
    FieldsOfBlank(segments);
  }

  lemma {:induction false} FromPairsKeeps(pairs: seq<seq<string>>, acc: Style, k: string)
    requires FromPairs(pairs, acc).Ok?
    requires forall m :: 0 <= m < |pairs| ==> pairs[m][0] != k
    ensures Get(FromPairs(pairs, acc).value, k) == Get(acc, k)
  {
    if |pairs| > 0 {
      assert forall m :: 0 < m < |pairs| ==> pairs[m] == pairs[1..][m - 1];
      FromPairsKeeps(pairs[1..], Put(acc, pairs[0][0], pairs[0][1]), k);
    }
  }

  lemma {:induction false} FromPairsLastWins(pairs: seq<seq<string>>, acc: Style, k: string, m: nat)
    requires FromPairs(pairs, acc).Ok?
    requires m < |pairs| && pairs[m][0] == k
    requires forall j :: m < j < |pairs| ==> pairs[j][0] != k
    ensures Get(FromPairs(pairs, acc).value, k) == Some(pairs[m][1])
  {
    assert forall j :: 0 < j < |pairs| ==> pairs[j] == pairs[1..][j - 1];
    if m == 0 {
      FromPairsKeeps(pairs[1..], Put(acc, pairs[0][0], pairs[0][1]), k);
    } else {
      FromPairsLastWins(pairs[1..], Put(acc, pairs[0][0], pairs[0][1]), k, m - 1);
    }
  }

  /** When a key occurs in several segments, the value of the last one wins. */
  lemma LaterSegmentWins(text: string, k: string, m: nat)
    requires ParseStyle(Some(text)).Ok?
    requires m < |StyleFields(text)| && StyleFields(text)[m][0] == k
    requires forall j :: m < j < |StyleFields(text)| ==> StyleFields(text)[j][0] != k
    ensures Get(ParseStyle(Some(text)).value, k) == Some(StyleFields(text)[m][1])
  {
    FromPairsLastWins(StyleFields(text), [], k, m);
  }

  /** A key that no segment names is absent from the parsed dict. */
  lemma UnnamedKeyAbsent(text: string, k: string)
    requires ParseStyle(Some(text)).Ok?
    requires forall j :: 0 <= j < |StyleFields(text)| ==> StyleFields(text)[j][0] != k
    ensures Get(ParseStyle(Some(text)).value, k).None?
  {
    FromPairsKeeps(StyleFields(text), [], k);
  }
}
