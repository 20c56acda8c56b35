/** The field iterator: four indices kept in step while it runs around a packed descriptor. */
module PbIter {
  import opened Machine
  import opened PbLayout

  const EXTENSION := 10

  predicate IsExtension(kind: nat) {
    kind % 16 == EXTENSION
  }

  predicate IsSubmessage(kind: nat) {
    kind % 16 == 8 || kind % 16 == 9
  }

  predicate IsRequired(kind: nat) {
    kind / 16 % 4 == 0
  }

  predicate AllFit(es: seq<Entry>) {
    forall i :: 0 <= i < |es| ==> Fits(es[i])
  }

  function Packs(es: seq<Entry>): (ps: seq<seq<u32>>)
    requires AllFit(es)
    ensures |ps| == |es| && forall i :: 0 <= i < |es| ==> ps[i] == Pack(es[i])
  {
    seq(|es|, i requires 0 <= i < |es| && AllFit(es) => Pack(es[i]))
  }

  /** Word lists one after the other, and the zero that ends the table. */
  function Table(ps: seq<seq<u32>>): (ws: seq<u32>) {
    if ps == [] then [0] else ps[0] + Table(ps[1..])
  }

  function Words(es: seq<Entry>): seq<u32>
    requires AllFit(es)
  {
    Table(Packs(es))
  }

  // ---------------------------------------------------------------- prefix sums

  /** Words of the fields before field `i`. */
  function Start(es: seq<Entry>, i: nat): nat
    requires i <= |es|
  {
    if i == 0 then 0 else Start(es, i - 1) + Length(es[i - 1])
  }

  function RequiredCount(es: seq<Entry>, i: nat): nat
    requires i <= |es|
  {
    if i == 0 then 0 else RequiredCount(es, i - 1) + if IsRequired(es[i - 1].kind) then 1 else 0
  }

  function SubmessageCount(es: seq<Entry>, i: nat): nat
    requires i <= |es|
  {
    if i == 0 then 0 else SubmessageCount(es, i - 1) + if IsSubmessage(es[i - 1].kind) then 1 else 0
  }

  /** The words `p` stand at an index, and are not the last. */
  predicate HasAt(ws: seq<u32>, at: nat, p: seq<u32>) {
    at + |p| < |ws| && ws[at..at + |p|] == p
  }

  function Before(ps: seq<seq<u32>>, i: nat): nat
    requires i <= |ps|
  {
    if i == 0 then 0 else |ps[0]| + Before(ps[1..], i - 1)
  }

  lemma {:induction false} ListAt(ps: seq<seq<u32>>, i: nat)
    requires i < |ps|
    ensures HasAt(Table(ps), Before(ps, i), ps[i])
  {
    if i == 0 {
      TableEnds(ps[1..]);
      HasFirst(ps[0], Table(ps[1..]));
    } else {
      ListAt(ps[1..], i - 1);
      HasLater(ps[0], Table(ps[1..]), Before(ps[1..], i - 1), ps[i]);
    }
  }

  lemma {:induction false} TableEnds(ps: seq<seq<u32>>)
    ensures Table(ps) != []
  {
    if ps != [] {
      TableEnds(ps[1..]);
    }
  }

  lemma {:induction false} BeforeNext(ps: seq<seq<u32>>, i: nat)
    requires i < |ps|
    ensures Before(ps, i + 1) == Before(ps, i) + |ps[i]|
  {
    if 0 < i {
      BeforeNext(ps[1..], i - 1);
    } else {
      assert Before(ps[1..], 0) == 0;
    }
  }

  lemma {:induction false} StartIsBefore(es: seq<Entry>, i: nat)
    requires AllFit(es) && i <= |es|
    ensures Start(es, i) == Before(Packs(es), i)
  {
    if 0 < i {
      StartIsBefore(es, i - 1);
      BeforeNext(Packs(es), i - 1);
    }
  }

  /** The words of field `i` are where the prefix sum says. */
  lemma FieldAt(es: seq<Entry>, i: nat)
    requires AllFit(es) && i < |es|
    ensures HasAt(Words(es), Start(es, i), Pack(es[i]))
  {
    StartIsBefore(es, i);
    ListAt(Packs(es), i);
  }

  lemma HasFirst(p: seq<u32>, more: seq<u32>)
    requires more != []
    ensures HasAt(p + more, 0, p)
  {
  }

  lemma HasLater(p: seq<u32>, more: seq<u32>, at: nat, q: seq<u32>)
    requires HasAt(more, at, q)
    ensures HasAt(p + more, |p| + at, q)
  {
  }

  /** The words of the first `n` fields are where they belong. */
  predicate AllPacked(ws: seq<u32>, es: seq<Entry>, n: nat)
    requires AllFit(es) && n <= |es|
  {
    n == 0 || (AllPacked(ws, es, n - 1) && HasAt(ws, Start(es, n - 1), Pack(es[n - 1])))
  }

  lemma {:induction false} PackedHas(ws: seq<u32>, es: seq<Entry>, n: nat, i: nat)
    requires AllFit(es) && i < n <= |es| && AllPacked(ws, es, n)
    ensures HasAt(ws, Start(es, i), Pack(es[i]))
  {
    if i < n - 1 {
      PackedHas(ws, es, n - 1, i);
    }
  }

  lemma {:induction false} AllPackedUpTo(ws: seq<u32>, es: seq<Entry>, n: nat)
    requires AllFit(es) && n <= |es| && forall i :: 0 <= i < n ==> HasAt(ws, Start(es, i), Pack(es[i]))
    ensures AllPacked(ws, es, n)
  {
    if 0 < n {
      AllPackedUpTo(ws, es, n - 1);
    }
  }

  lemma WordsPacked(es: seq<Entry>)
    requires AllFit(es)
    ensures AllPacked(Words(es), es, |es|)
  {
    var ws := Words(es);
    forall i | 0 <= i < |es|
      ensures HasAt(ws, Start(es, i), Pack(es[i]))
    {
      FieldAt(es, i);
    }
    AllPackedUpTo(ws, es, |es|);
  }

  /** What the first word of field `i` says. */
  lemma WordAt(ws: seq<u32>, es: seq<Entry>, i: nat)
    requires AllFit(es) && AllPacked(ws, es, |es|) && i < |es|
    ensures Start(es, i) < |ws|
    ensures var w := ws[Start(es, i)];
      && w / 4 % 0x40 == es[i].tag % 0x40 && w / 0x100 % 0x100 == es[i].kind
      && Length(es[i]) == if w % 4 == 0 then 1 else if w % 4 == 1 then 2 else if w % 4 == 2 then 4 else 8
  {
    PackedHas(ws, es, |es|, i);
    FirstWord(es[i]);
    assert Pack(es[i])[0] == ws[Start(es, i)];
    HeadReads(es[i], ws[Start(es, i)], Upper(es[i]));
  }

  /** A field that the search may stop at. */
  predicate Match(e: Entry, tag: nat) {
    e.tag == tag && !IsExtension(e.kind)
  }

  /** The index `j` steps on from `start`, around the end. */
  function Around(start: nat, j: nat, count: nat): (i: nat)
    requires start < count && j <= count
    ensures i < count
  {
    if start + j < count then start + j else start + j - count
  }

  class FieldIter {
    const words: seq<u32>
    const count: nat
    ghost const es: seq<Entry>
    var index: nat
    var infoIndex: nat
    var requiredIndex: nat
    var submessageIndex: nat
    var field: Entry

    /** The indices are the prefix sums of the fields before the current one. */
    ghost predicate Valid()
      reads this
    {
      && AllFit(es) && AllPacked(words, es, |es|) && count == |es| && index < count
      && infoIndex == Start(es, index)
      && requiredIndex == RequiredCount(es, index) && submessageIndex == SubmessageCount(es, index)
    }

    ghost predicate Loaded()
      requires Valid()
      reads this
    {
      field == es[index]
    }

    constructor (fields: seq<Entry>)
      requires AllFit(fields) && fields != []
      ensures Valid() && Loaded() && index == 0 && es == fields
    {
      words, count, es := Words(fields), |fields|, fields;
      index, infoIndex, requiredIndex, submessageIndex := 0, 0, 0, 0;
      WordsPacked(fields);
      FieldAt(fields, 0);
      assert Start(fields, 0) == 0;
      LoadInverts(fields[0], Words(fields), 0);
      field := Load(Words(fields), 0);
    }

    method LoadField()
      requires Valid()
      modifies this`field
      ensures Valid() && Loaded()
    {
      PackedHas(words, es, |es|, index);
      LoadInverts(es[index], words, infoIndex);
      field := Load(words, infoIndex);
    }

    /** Moves on by what the current field's first word says, or back to the start. */
    method Advance()
      requires Valid()
      modifies this`index, this`infoIndex, this`requiredIndex, this`submessageIndex
      ensures Valid() && index == if old(index) + 1 == count then 0 else old(index) + 1
    {
      WordAt(words, es, index);
      index := index + 1;
      if index >= count {
        index, infoIndex, requiredIndex, submessageIndex := 0, 0, 0, 0;
      } else {
        var w0 := words[infoIndex];
        var kind := w0 / 0x100 % 0x100;
        infoIndex := infoIndex + if w0 % 4 == 0 then 1 else if w0 % 4 == 1 then 2 else if w0 % 4 == 2 then 4 else 8;
        if IsRequired(kind) {
          requiredIndex := requiredIndex + 1;
        }
        if IsSubmessage(kind) {
          submessageIndex := submessageIndex + 1;
        }
      }
    }

    method Next() returns (more: bool)
      requires Valid()
      modifies this
      ensures Valid() && Loaded() && index == if old(index) + 1 == count then 0 else old(index) + 1
      ensures more <==> index != 0
    {
      Advance();
      LoadField();
      more := index != 0;
    }

    /** Looks for a tag once around, from wherever it stands. It stops at a field with the tag if there is one,
        and otherwise is back where it was. */
    method Find(tag: nat) returns (found: bool)
      requires Valid() && Loaded()
      modifies this
      ensures Valid() && Loaded()
      ensures found <==> es[old(index)].tag == tag || exists i :: 0 <= i < count && Match(es[i], tag)
      ensures found ==> es[index].tag == tag && (index == old(index) || Match(es[index], tag))
      ensures !found ==> index == old(index)
    {
      if field.tag == tag {
        return true;
      }
      var start := index;
      ghost var k := 0;
      var again := true;
      while again
        invariant Valid() && start < count && 0 <= k <= count
        invariant index == Around(start, k, count) && (again <==> k < count)
        invariant forall j :: 0 < j <= k ==> !Match(es[Around(start, j, count)], tag)
        decreases count - k
      {
        Advance();
        k := k + 1;
        var hit := AtTag(tag);
        if hit {
          return true;
        }
        again := index != start;
      }
      LoadField();
      forall i | 0 <= i < count
        ensures !Match(es[i], tag)
      {
        assert Around(start, if start < i then i - start else i + count - start, count) == i;
      }
      found := false;
    }

    /** The quick test on six bits of the tag first, the whole field only if it passes. */
    method AtTag(tag: nat) returns (hit: bool)
      requires Valid()
      modifies this`field
      ensures Valid() && (hit <==> Match(es[index], tag)) && (hit ==> Loaded())
    {
      WordAt(words, es, index);
      hit := false;
      if words[infoIndex] / 4 % 0x40 == tag % 0x40 {
        LoadField();
        hit := field.tag == tag && !IsExtension(field.kind);
      }
    }
  }
}
