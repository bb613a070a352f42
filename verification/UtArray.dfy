/** utarray: a growable array, and the sequence it stands for. */
module UtArray {

  function Repeat<T>(x: T, n: nat): (s: seq<T>)
    ensures |s| == n && forall k :: 0 <= k < n ==> s[k] == x
  {
    seq(n, _ => x)
  }

  /** `s` cut or padded with `zero` to length `n`. */
  function Resized<T>(s: seq<T>, n: nat, zero: T): (r: seq<T>)
    ensures |r| == n
  {
    if n <= |s| then s[..n] else s + Repeat(zero, n - |s|)
  }

  function Spliced<T>(s: seq<T>, j: nat, w: seq<T>): seq<T>
    requires j <= |s|
  {
    s[..j] + w + s[j..]
  }

  function Swapped<T>(s: seq<T>, j: nat, k: nat): (r: seq<T>)
    requires j < |s| && k < |s|
    ensures |r| == |s|
  {
    s[j := s[k]][k := s[j]]
  }

  lemma ResizedAt<T>(s: seq<T>, n: nat, zero: T, k: nat)
    requires k < n
    ensures Resized(s, n, zero)[k] == if k < |s| then s[k] else zero
  {
  }

  lemma SplicedAt<T>(s: seq<T>, j: nat, w: seq<T>, k: nat)
    requires j <= |s| && k < |s| + |w|
    ensures |Spliced(s, j, w)| == |s| + |w|
    ensures Spliced(s, j, w)[k] == if k < j then s[k] else if k < j + |w| then w[k - j] else s[k - |w|]
  {
  }

  lemma SwappedAt<T>(s: seq<T>, j: nat, k: nat, m: nat)
    requires j < |s| && k < |s| && m < |s|
    ensures Swapped(s, j, k)[m] == if m == j then s[k] else if m == k then s[j] else s[m]
  {
  }

  class Vec<T> {
    var i: nat          // index of the next free slot
    var n: nat          // number of slots
    var d: array<T>
    const zero: T       // what a zeroed slot holds

    ghost predicate Valid()
      reads this
    {
      i <= n == d.Length
    }

    ghost function Contents(): (s: seq<T>)
      requires Valid()
      reads this, d
      ensures |s| == i
    {
      d[..i]
    }

    constructor (zero: T)
      ensures Valid() && Contents() == [] && fresh(d) && this.zero == zero
    {
      i, n, this.zero := 0, 0, zero;
      d := new T[0];
    }

    /** utarray_reserve: double the number of slots until `more` elements fit. */
    method Reserve(more: nat)
      requires Valid()
      modifies this`n, this`d
      ensures Valid() && Contents() == old(Contents()) && i + more <= n
      ensures d == old(d) || fresh(d)
    {
      if i + more > n {
        while i + more > n
          invariant n >= old(n)
          decreases i + more - n
          modifies this`n
        {
          n := if n > 0 then 2 * n else 8;
        }
        var src, len := d, d.Length;
        d := new T[n](k requires 0 <= k reads src => if k < len then src[k] else zero);
        assert d[..i] == src[..i];
      }
    }

    method PushBack(p: T)
      requires Valid()
      modifies this, d
      ensures Valid() && Contents() == old(Contents()) + [p] && (d == old(d) || fresh(d))
    {
      Reserve(1);
      d[i] := p;
      i := i + 1;
    }

    /** utarray_resize: cut, or pad with zeroed slots. */
    method Resize(num: nat)
      requires Valid()
      modifies this, d
      ensures Valid() && Contents() == Resized(old(Contents()), num, zero) && (d == old(d) || fresh(d))
      ensures i == num && forall k :: 0 <= k < num ==>
        Contents()[k] == if k < |old(Contents())| then old(Contents())[k] else zero
    {
      ghost var s := Contents();
      if i < num {
        Reserve(num - i);
        forall k | i <= k < num {
          d[k] := zero;
        }
        assert d[..num] == s + Repeat(zero, num - |s|);
      } else {
        assert d[..num] == s[..num];
      }
      i := num;
    }

    /** The memmove of the insertions: shift the tail up by `m` slots. */
    method OpenGap(j: nat, m: nat)
      requires Valid() && j <= i && i + m <= n
      modifies d
      ensures forall k :: 0 <= k < j ==> d[k] == old(d[k])
      ensures forall k :: j + m <= k < i + m ==> d[k] == old(d[k - m])
    {
      if j < i {
        forall k | j + m <= k < i + m {
          d[k] := d[k - m];
        }
      }
    }

    /** utarray_insert: shift the tail up by one; beyond the end, pad first. */
    method Insert(p: T, j: nat)
      requires Valid()
      modifies this, d
      ensures Valid() && (d == old(d) || fresh(d))
      ensures var s := old(Contents());
              Contents() == Spliced(if j > |s| then Resized(s, j, zero) else s, j, [p])
    {
      if j > i {
        Resize(j);
      }
      InsertInside(p, j);
    }

    method InsertInside(p: T, j: nat)
      requires Valid() && j <= i
      modifies this, d
      ensures Valid() && (d == old(d) || fresh(d))
      ensures Contents() == Spliced(old(Contents()), j, [p])
    {
      ghost var s := Contents();
      Reserve(1);
      assert forall k :: 0 <= k < i ==> d[k] == s[k];
      OpenGap(j, 1);
      d[j] := p;
      i := i + 1;
      ghost var r := Spliced(s, j, [p]);
      forall k | 0 <= k < i ensures d[k] == r[k] {
        if k < j {
          assert r[k] == s[k];
        } else if k > j {
          assert r[k] == s[k - 1];
        }
      }
    }

    /** utarray_inserta: splice a whole other array in, or the array itself at or beyond its end. What
        goes in is the array after any padding, which matters only for the array itself. */
    method Inserta(w: Vec<T>, j: nat)
      requires Valid() && w.Valid() && (if w == this then i == 0 || j >= i else w.d != d)
      modifies this, d
      ensures Valid() && (d == old(d) || fresh(d))
      ensures var s := old(Contents());
              var padded := if j > |s| then Resized(s, j, zero) else s;
              Contents() == if old(w.i) == 0 then s
                            else Spliced(padded, j, if w == this then padded else old(w.Contents()))
    {
      if w.i == 0 {
        return;
      }
      if j > i {
        Resize(j);
      }
      SpliceInside(w, j);
    }

    method SpliceInside(w: Vec<T>, j: nat)
      requires Valid() && w.Valid() && j <= i && (if w == this then j == i else w.d != d)
      modifies this, d
      ensures Valid() && (d == old(d) || fresh(d))
      ensures Contents() == Spliced(old(Contents()), j, old(w.Contents()))
    {
      ghost var s, t := Contents(), w.Contents();
      var len := w.i;
      MakeRoom(j, len);
      assert w.d[..len] == t;
      FillGap(w.d, len, j, s, t);
    }

    /** Slots for `len` more elements, in front of the ones from `j` on. */
    method MakeRoom(j: nat, len: nat)
      requires Valid() && j <= i
      modifies this`n, this`d, d
      ensures Valid() && i + len <= n && (d == old(d) || fresh(d))
      ensures d[..j] == old(Contents())[..j] && d[j + len..i + len] == old(Contents())[j..]
    {
      ghost var s := Contents();
      Reserve(len);
      ghost var r := d[..];
      assert r[..i] == s;
      OpenGap(j, len);
      assert d[..j] == s[..j] by {
        assert forall k :: 0 <= k < j ==> d[k] == r[k] == r[..i][k];
      }
      assert d[j + len..i + len] == s[j..] by {
        assert forall k :: j + len <= k < i + len ==> d[k] == r[k - len] == r[..i][k - len];
      }
    }

    method FillGap(src: array<T>, len: nat, j: nat, ghost s: seq<T>, ghost t: seq<T>)
      requires Valid() && j <= i && i + len <= n && len <= src.Length && (src == d ==> len <= j)
      requires |s| == i && d[..j] == s[..j] && d[j + len..i + len] == s[j..] && src[..len] == t
      modifies this`i, d
      ensures Valid() && Contents() == Spliced(s, j, t)
    {
      ghost var tail := d[j + len..];
      assert tail[..i - j] == d[j + len..i + len];
      CopyIn(src, len, j);
      assert d[j + len..i + len] == tail[..i - j];
      i := i + len;
      ghost var r := d[..i];
      assert r[..j] == d[..j] && r[j..j + len] == d[j..j + len] && r[j + len..] == d[j + len..i];
      SpliceReached(s, j, t, r);
    }

    lemma SpliceReached(s: seq<T>, j: nat, t: seq<T>, r: seq<T>)
      requires j <= |s| && |r| == |s| + |t|
      requires r[..j] == s[..j] && r[j..j + |t|] == t && r[j + |t|..] == s[j..]
      ensures r == Spliced(s, j, t)
    {
      assert r == r[..j] + r[j..j + |t|] + r[j + |t|..];
    }

    /** The memcpy of `utarray_inserta`: fill the gap with the first `len` slots of `src`. */
    method CopyIn(src: array<T>, len: nat, j: nat)
      requires len <= src.Length && j + len <= d.Length && (src == d ==> len <= j)
      modifies d
      ensures d[j..j + len] == old(src[..len])
      ensures d[..j] == old(d[..j]) && d[j + len..] == old(d[j + len..])
    {
      forall k | 0 <= k < len {
        d[j + k] := src[k];
      }
    }

    /** utarray_erase: close the gap. */
    method Erase(pos: nat, len: nat)
      requires Valid() && pos + len <= i
      modifies this`i, d
      ensures Valid() && Contents() == old(Contents())[..pos] + old(Contents())[pos + len..]
    {
      ghost var s := Contents();
      if i > pos + len {
        forall k | pos <= k < i - len {
          d[k] := d[k + len];
        }
      }
      i := i - len;
      assert d[..i] == s[..pos] + s[pos + len..];
    }

    /** ut_swap of two elements. */
    method Swap(j: nat, k: nat)
      requires Valid() && j < i && k < i
      modifies d
      ensures Valid() && Contents() == Swapped(old(Contents()), j, k)
    {
      var tmp := d[j];
      d[j] := d[k];
      d[k] := tmp;
    }
  }

  predicate Within(k: int, from: int, len: int) {
    from <= k < from + len
  }

  /** Inserting an array of `i` elements into itself at `j` copies from slots that it also writes exactly
      when `j` lies inside the array. */
  lemma SelfInsertOverlaps(i: nat, j: nat)
    requires i > 0
    ensures var len := if j > i then j else i;
            (exists k :: Within(k, 0, len) && Within(k, j, len)) <==> j < i
  {
    if j < i {
      assert Within(j, 0, i) && Within(j, j, i);
    }
  }
}
