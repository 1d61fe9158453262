/**
 The record schema of the dashboard: an entry's seven user-editable fields, a
 mirrored record (an entry plus the document id the store assigned), a snapshot
 document, and the writes the client issues to the store. A missing optional field
 is the empty string. Also the order-keeping selection `Array.prototype.filter`
 performs, with its characterisation.
 */
module Records {

  datatype Option<T> = None | Some(value: T)

  /** The fields of an achievement document; `kind` is the source's `type` field. */
  datatype Entry = Entry(
    kind: string,
    title: string,
    description: string,
    date: string,
    grade: string,
    institution: string,
    category: string)

  /** An element of the mirror: `{ id: doc.id, ...doc.data() }`. */
  datatype Record = Record(id: string, data: Entry)

  /** A document of a snapshot as the store delivers it: its id and its data. */
  datatype Doc = Doc(id: string, data: Entry)

  /** A write the client issues to the user's collection. */
  datatype Write = Add(entry: Entry) | Delete(id: string)

  /** `a` is `b` with some elements removed, the rest kept in their order. */
  ghost predicate IsSubseq<T>(a: seq<T>, b: seq<T>)
    decreases |b|
  {
    if a == [] then true
    else if b == [] then false
    else (a[0] == b[0] && IsSubseq(a[1..], b[1..])) || IsSubseq(a, b[1..])
  }

  lemma {:induction false} SubseqTransitive<T>(a: seq<T>, b: seq<T>, c: seq<T>)
    requires IsSubseq(a, b) && IsSubseq(b, c)
    ensures IsSubseq(a, c)
    decreases |c|
  {
    if a != [] {
      assert b != [] && c != [];
      if b[0] == c[0] && IsSubseq(b[1..], c[1..]) {
        if a[0] == b[0] && IsSubseq(a[1..], b[1..]) {
          SubseqTransitive(a[1..], b[1..], c[1..]);
        } else {
          SubseqTransitive(a, b[1..], c[1..]);
        }
      } else {
        SubseqTransitive(a, b, c[1..]);
      }
    }
  }

  lemma {:induction false} SubseqReflexive<T>(a: seq<T>)
    ensures IsSubseq(a, a)
  {
    if a != [] {
      SubseqReflexive(a[1..]);
    }
  }

  /** `s.filter(keep)`: the elements of `s` that satisfy `keep`, in their original
      relative order. */
  function Select<T>(s: seq<T>, keep: T -> bool): (r: seq<T>)
    ensures IsSubseq(r, s) && |r| <= |s|
    ensures forall x :: x in r ==> keep(x)
  {
    if s == [] then []
    else
      var rest := Select(s[1..], keep);
      if keep(s[0]) then
        assert ([s[0]] + rest)[1..] == rest;
        [s[0]] + rest
      else
        rest
  }

  /** `Select` keeps every element that satisfies `keep` as often as it occurs in `s`,
      and no other. */
  lemma {:induction false} SelectCount<T>(s: seq<T>, keep: T -> bool, x: T)
    ensures multiset(Select(s, keep))[x] == if keep(x) then multiset(s)[x] else 0
  {
    if s != [] {
      SelectCount(s[1..], keep, x);
      assert s == [s[0]] + s[1..];
    }
  }

  lemma {:induction false} SelectConcat<T>(a: seq<T>, b: seq<T>, keep: T -> bool)
    ensures Select(a + b, keep) == Select(a, keep) + Select(b, keep)
  {
    if a != [] {
      var ab := a + b;
      assert ab != [] && ab[0] == a[0] && ab[1..] == a[1..] + b;
      SelectConcat(a[1..], b, keep);
      var ra, rb := Select(a[1..], keep), Select(b, keep);
      assert Select(ab, keep) == (if keep(a[0]) then [a[0]] else []) + (ra + rb);
      assert Select(a, keep) == (if keep(a[0]) then [a[0]] else []) + ra;
      assert (if keep(a[0]) then [a[0]] else []) + (ra + rb) == ((if keep(a[0]) then [a[0]] else []) + ra) + rb;
    } else {
      assert a + b == b;
    }
  }

  /** `Select` keeps a sequence whose every element satisfies `keep` whole. */
  lemma {:induction false} SelectAll<T>(s: seq<T>, keep: T -> bool)
    requires forall x :: x in s ==> keep(x)
    ensures Select(s, keep) == s
  {
    if s != [] {
      SelectAll(s[1..], keep);
      assert s == [s[0]] + s[1..];
    }
  }

  /** The entries of a sequence of records, without their ids. */
  function Entries(data: seq<Record>): (es: seq<Entry>)
    ensures |es| == |data|
    ensures forall i :: 0 <= i < |data| ==> es[i] == data[i].data
  {
    seq(|data|, i requires 0 <= i < |data| => data[i].data)
  }

  /** The mirror a snapshot produces: one record per document, in snapshot order, each
      carrying its document id. */
  function Mirror(docs: seq<Doc>): (recs: seq<Record>)
    ensures |recs| == |docs|
    ensures forall i :: 0 <= i < |docs| ==> recs[i].id == docs[i].id && recs[i].data == docs[i].data
  {
    seq(|docs|, i requires 0 <= i < |docs| => Record(docs[i].id, docs[i].data))
  }

  /** `s.map(f)`. */
  function Map<A, B>(s: seq<A>, f: A -> B): (r: seq<B>)
    ensures |r| == |s|
  {
    seq(|s|, i requires 0 <= i < |s| => f(s[i]))
  }

  lemma MapAt<A, B>(s: seq<A>, f: A -> B, i: nat)
    requires i < |s|
    ensures Map(s, f)[i] == f(s[i])
  {
  }

  lemma MapAppend<A, B>(a: seq<A>, b: seq<A>, f: A -> B)
    ensures Map(a + b, f) == Map(a, f) + Map(b, f)
  {
  }

  /** Selecting works element by element: an element in the middle is kept, or
      dropped, in its own place. */
  lemma SelectSplice<T>(a: seq<T>, x: T, b: seq<T>, keep: T -> bool)
    ensures Select(a + [x] + b, keep) == Select(a, keep) + (if keep(x) then [x] else []) + Select(b, keep)
  {
    SelectConcat(a + [x], b, keep);
    SelectConcat(a, [x], keep);
    assert [x][1..] == [];
  }

  lemma MapConcat<A, B>(p: seq<A>, q: seq<A>, r: seq<A>, f: A -> B)
    ensures Map(p + q + r, f) == Map(p, f) + Map(q, f) + Map(r, f)
  {
    MapAppend(p + q, r, f);
    MapAppend(p, q, f);
  }

  /** Selecting and then mapping works element by element: an element in the middle
      contributes its own image, or nothing, in its own place. */
  lemma MapSelectSplice<A, B>(a: seq<A>, x: A, b: seq<A>, keep: A -> bool, f: A -> B)
    ensures Map(Select(a + [x] + b, keep), f)
         == Map(Select(a, keep), f) + (if keep(x) then [f(x)] else []) + Map(Select(b, keep), f)
  {
    var mid := if keep(x) then [x] else [];
    SelectSplice(a, x, b, keep);
    MapConcat(Select(a, keep), mid, Select(b, keep), f);
    if keep(x) {
      MapAt(mid, f, 0);
    }
  }
}
