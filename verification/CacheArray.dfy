/** CacheAssoc under LRU: an array of pointers to lines, each set a slice of it. */
module CacheArray {
  import opened Powers
  import opened LruList
  import opened Rotation
  import opened LiveModel

  class Line {
    var tag: nat
    var st: bool
    var order: nat

    /** Only the tag is initialised; the other fields start as the allocator left them. */
    constructor (st: bool, order: nat)
      ensures tag == 0
    {
      tag, this.st, this.order := 0, st, order;
    }

    ghost function Value(): Cell
      reads this
    {
      Cell(tag, st, order)
    }
  }

  class CacheAssoc {
    const content: array<Line>
    const shape: Shape
    ghost const lines: set<Line>
    /** The array's pointers, and what they point to. */
    ghost var ptrs: seq<Line>
    ghost var cells: seq<Cell>

    /** All lines invalid; junk is what the allocator left in the other fields. */
    constructor (shape: Shape, junk: nat -> (bool, nat))
      requires shape.Ok()
      ensures Valid() && this.shape == shape && fresh(content) && fresh(lines)
      ensures forall i | 0 <= i < |cells| :: cells[i].tag == 0
    {
      MulMonotone(shape.assoc, 1, shape.sets);
      var first := new Line(junk(0).0, junk(0).1);
      var all := new Line[shape.sets * shape.assoc](i => first);
      ghost var made, values := {first}, [first.Value()];
      var i := 1;
      while i < all.Length
        invariant 1 <= i <= all.Length == shape.sets * shape.assoc && |values| == i
        invariant forall j | 0 <= j < all.Length :: all[j] in made
        invariant forall x | x in made :: fresh(x)
        invariant forall j | 0 <= j < i :: values[j] == all[j].Value() && values[j].tag == 0
        invariant forall j, k | 0 <= j < k < i :: all[j] != all[k]
      {
        var next := new Line(junk(i).0, junk(i).1);
        all[i] := next;
        made, values := made + {next}, values + [next.Value()];
        i := i + 1;
      }
      content := all;
      this.shape, lines, cells, ptrs := shape, made, values, all[..];
    }

    ghost predicate Valid()
      reads this, content, lines
    {
      && shape.Ok() && |ptrs| == |cells| == content.Length == shape.sets * shape.assoc && Distinct(ptrs)
      && (forall i | 0 <= i < |ptrs| :: content[i] == ptrs[i])
      && forall i | 0 <= i < |ptrs| :: ptrs[i] in lines && ptrs[i].Value() == cells[i]
    }

    /** Where set k starts. */
    function BaseOf(k: nat): (base: nat)
      requires shape.Ok() && content.Length == shape.sets * shape.assoc && k < shape.sets
      ensures base + shape.assoc <= content.Length
    {
      SliceFits(k, shape.sets, shape.assoc);
      k * shape.assoc
    }

    /** calcIndex4Tag, without index hashing. */
    function IndexOf(tag: nat): (base: nat)
      requires shape.Ok() && content.Length == shape.sets * shape.assoc
      ensures base + shape.assoc <= content.Length
    {
      BaseOf(tag % shape.sets)
    }

    /** The tags of the set that tag belongs to. */
    ghost function TagsFor(tag: nat): (ts: seq<nat>)
      requires shape.Ok() && |cells| == content.Length == shape.sets * shape.assoc
      reads this
      ensures |ts| == shape.assoc && forall i | 0 <= i < |ts| :: ts[i] == cells[IndexOf(tag) + i].tag
    {
      TagsOf(cells[IndexOf(tag)..IndexOf(tag) + shape.assoc])
    }

    /** The loop that shifts the lines before p down and puts line p first. */
    method Shift(base: nat, p: nat, ghost s: seq<Line>)
      requires base + p < content.Length == |s| && forall i | 0 <= i < |s| :: content[i] == s[i]
      modifies content
      ensures forall i | 0 <= i < |s| :: content[i] == s[Source(base, p, i)]
    {
      var tmp := content[base + p];
      var l := base + p;
      while l > base
        invariant base <= l <= base + p
        invariant forall i | 0 <= i < l || base + p < i < |s| :: content[i] == s[i]
        invariant forall i | l < i <= base + p :: content[i] == s[i - 1]
      {
        content[l] := content[l - 1];
        l := l - 1;
      }
      content[base] := tmp;
    }

    method MoveToFront(base: nat, p: nat)
      requires Valid() && base + p < content.Length
      modifies content, `cells, `ptrs
      ensures Valid() && ptrs == Rotated(old(ptrs), base, p) && cells == Rotated(old(cells), base, p)
    {
      RotatedDistinct(ptrs, base, p);
      Shift(base, p, ptrs);
      cells, ptrs := Rotated(cells, base, p), Rotated(ptrs, base, p);
    }

    /** findLinePrivate. */
    method FindLine(tag: nat) returns (line: Line?)
      requires Valid()
      modifies content, `cells, `ptrs
      ensures Valid()
      ensures var w := Where(old(TagsFor(tag)), tag);
        if w < shape.assoc then
          && line == content[IndexOf(tag)] && cells == Rotated(old(cells), IndexOf(tag), w)
          && ptrs == Rotated(old(ptrs), IndexOf(tag), w)
        else line == null && cells == old(cells) && ptrs == old(ptrs)
    {
      var base := IndexOf(tag);
      ghost var ts := TagsFor(tag);
      if content[base].tag == tag {
        WhereIs(ts, tag, 0);
        NotRotated(ptrs, base);
        NotRotated(cells, base);
        return content[base];
      }
      var l := 1;
      while l < shape.assoc && content[base + l].tag != tag
        invariant 1 <= l <= shape.assoc && forall i | 0 <= i < l :: ts[i] != tag
      {
        l := l + 1;
      }
      WhereIs(ts, tag, l);
      if l == shape.assoc {
        return null;
      }
      MoveToFront(base, l);
      line := content[base];
    }

    /** findLine2Replace: the line with the tag, or the last one, moved to the front. */
    method FindLine2Replace(tag: nat) returns (line: Line)
      requires Valid()
      modifies content, `cells, `ptrs
      ensures Valid() && line == content[IndexOf(tag)]
      ensures ptrs == Rotated(old(ptrs), IndexOf(tag), Victim(old(TagsFor(tag)), tag))
      ensures cells == Rotated(old(cells), IndexOf(tag), Victim(old(TagsFor(tag)), tag))
    {
      hide Rotated, Victim;
      var base := IndexOf(tag);
      ghost var ts := TagsFor(tag);
      if content[base].tag == tag {
        VictimIs(ts, tag, 0, true);
        NotRotated(ptrs, base);
        NotRotated(cells, base);
        return content[base];
      }
      var l: nat, hit := shape.assoc, false;
      while l > 0 && !hit
        invariant l <= shape.assoc && (forall i | (if hit then l + 1 else l) <= i < shape.assoc :: ts[i] != tag)
        invariant hit ==> l < shape.assoc && ts[l] == tag
        decreases l, !hit
      {
        l := l - 1;
        hit := content[base + l].tag == tag;
      }
      VictimIs(ts, tag, l, hit);
      var p := if hit then l else shape.assoc - 1;
      MoveToFront(base, p);
      line := content[base];
    }

    /** fillLine. */
    method FillLine(tag: nat) returns (line: Line)
      requires Valid()
      modifies content, `cells, `ptrs, lines
      ensures Valid() && line == content[IndexOf(tag)]
      ensures var base, p := IndexOf(tag), Victim(old(TagsFor(tag)), tag);
        && ptrs == Rotated(old(ptrs), base, p) && line.Value() == old(cells)[base + p].(tag := tag)
        && cells == Rotated(old(cells), base, p)[base := line.Value()]
    {
      hide Rotated, Victim, TagsOf;
      line := FindLine2Replace(tag);
      line.tag := tag;
      cells := cells[IndexOf(tag) := line.Value()];
    }

    /** Assignments to the fields of one line, by its position. */
    method Stamp(i: nat, st: bool, order: nat)
      requires Valid() && i < content.Length
      modifies `cells, lines
      ensures Valid() && cells == old(cells)[i := Cell(old(cells)[i].tag, st, order)]
    {
      var line := content[i];
      line.st, line.order := st, order;
      cells := cells[i := line.Value()];
    }
  }

  lemma RotatedDistinct(s: seq<Line>, base: nat, p: nat)
    requires base + p < |s| && Distinct(s)
    ensures Distinct(Rotated(s, base, p)) && Rotated(s, base, p)[base] == s[base + p]
  {
  }

  lemma SliceFits(k: nat, sets: nat, assoc: nat)
    requires k < sets
    ensures k * assoc + assoc <= sets * assoc
  {
    MulMonotone(assoc, k + 1, sets);
    assert (k + 1) * assoc == k * assoc + assoc;
  }

  /** Different sets are different slices. */
  lemma SlicesApart(j: nat, k: nat, assoc: nat)
    requires j != k
    ensures j * assoc + assoc <= k * assoc || k * assoc + assoc <= j * assoc
  {
    if j < k { SliceFits(j, k, assoc); } else { SliceFits(k, j, assoc); }
  }

  lemma {:induction false} WhereIs(ts: seq<nat>, t: nat, l: nat)
    requires l <= |ts| && (l < |ts| ==> ts[l] == t) && forall i | 0 <= i < l :: ts[i] != t
    ensures Where(ts, t) == l
  {
  }

  /** The victim a search from the end finds, position 0 having been tried first. */
  lemma VictimIs(ts: seq<nat>, t: nat, l: nat, hit: bool)
    requires |ts| > 0 && (l == 0 && hit ==> ts[0] == t) && (ts[0] == t ==> l == 0 && hit)
    requires if hit then l == 0 || (l < |ts| && ts[l] == t && (forall i | l < i < |ts| :: ts[i] != t)) else forall i | 0 <= i < |ts| :: ts[i] != t
    ensures Victim(ts, t) == if hit then l else |ts| - 1
  {
  }

  lemma NotRotated<T>(s: seq<T>, base: nat)
    requires base < |s|
    ensures Rotated(s, base, 0) == s
  {
  }
}
