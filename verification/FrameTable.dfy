/** Reference-counted page frames and the page tables that name them: the accounting of kernel/paging.c. */
module FrameTable {
  import opened Machine

  /** A present page table entry: frame number, writable, accessible from user mode. */
  datatype Pte = Pte(frame: int, rw: bool, user: bool)

  /** A page table: its present entries. */
  type Table = map<int, Pte>
  type Tables = map<int, Table>

  /** The table slots whose entry names frame f. */
  ghost function Users(tab: Tables, f: int): set<(int, int)> {
    set t, i | t in tab && i in tab[t] && tab[t][i].frame == f :: (t, i)
  }

  ghost predicate Distinct(s: seq<int>) {
    forall i, j :: 0 <= i < j < |s| ==> s[i] != s[j]
  }

  /** Whether some entry may name f: a frame of the table that is not held for another purpose. */
  predicate Mappable(f: int, frames: int, held: set<int>) { 0 <= f < frames && f !in held }

  /**
   * Exact accounting. A frame held by the kernel itself (a page table, a page directory, a stack) has
   * reference count 1 and no entry names it; any other frame's count is the number of entries that name
   * it; and the pool lists every frame with count 0 exactly once.
   */
  ghost predicate Exact(ref: seq<nat>, pool: seq<int>, tab: Tables, held: set<int>) {
    && Distinct(pool)
    && (forall f :: f in pool ==> 0 <= f < |ref|)
    && (forall f :: 0 <= f < |ref| ==> (f in pool <==> ref[f] == 0))
    && (forall f :: f in held ==> 0 <= f < |ref| && ref[f] == 1)
    && tab.Keys <= held
    && (forall t, i :: t in tab && i in tab[t] ==> Mappable(tab[t][i].frame, |ref|, held))
    && (forall f :: 0 <= f < |ref| && f !in held ==> ref[f] == |Users(tab, f)|)
  }

  // ---------------------------------------------------------------- single steps

  lemma AllocExact(ref: seq<nat>, pool: seq<int>, tab: Tables, held: set<int>)
    requires Exact(ref, pool, tab, held) && pool != []
    ensures 0 <= pool[0] < |ref| && pool[0] !in pool[1..] && pool[0] !in held && pool[0] !in tab && Users(tab, pool[0]) == {}
    ensures Exact(ref[pool[0] := 1], pool[1..], tab, held + {pool[0]})
  {
    var f := pool[0];
    assert f in pool;
    assert ref[f] == 0 && f !in held;
    assert |Users(tab, f)| == 0;
    forall t, i | t in tab && i in tab[t] ensures tab[t][i].frame != f {
      assert (t, i) !in Users(tab, f);
    }
    assert Distinct(pool[1..]);
    assert forall g :: g in pool[1..] ==> 0 <= g < |ref| by { assert forall g :: g in pool[1..] ==> g in pool; }
    assert forall t, i :: t in tab && i in tab[t] ==> Mappable(tab[t][i].frame, |ref|, held + {f});
    forall g | 0 <= g < |ref| ensures g in pool[1..] <==> ref[f := 1][g] == 0 {
      if g in pool[1..] { assert g in pool; }
      if k :| 0 < k < |pool| && pool[k] == g { assert pool[1..][k - 1] == g; }
    }
  }

  /** kfree_frame on a frame the kernel held. */
  lemma ReleaseExact(ref: seq<nat>, pool: seq<int>, tab: Tables, held: set<int>, f: int)
    requires Exact(ref, pool, tab, held) && f in held && f !in tab
    ensures 0 <= f < |ref| && Exact(ref[f := 0], [f] + pool, tab, held - {f})
  {
  }

  lemma UsersAfterSet(tab: Tables, t: int, i: int, pte: Pte, f: int)
    requires t in tab && i !in tab[t]
    ensures Users(tab[t := tab[t][i := pte]], f) == if pte.frame == f then Users(tab, f) + {(t, i)} else Users(tab, f)
    ensures (t, i) !in Users(tab, f)
  {
    var tab' := tab[t := tab[t][i := pte]];
    assert tab'[t][i] == pte;
  }

  lemma UsersAfterClear(tab: Tables, t: int, i: int, f: int)
    requires t in tab && i in tab[t]
    ensures Users(tab[t := tab[t] - {i}], f) == if tab[t][i].frame == f then Users(tab, f) - {(t, i)} else Users(tab, f)
    ensures tab[t][i].frame == f ==> (t, i) in Users(tab, f)
  {
    var tab' := tab[t := tab[t] - {i}];
    assert tab'[t] == tab[t] - {i};
  }

  /** One more entry for a frame that already has some. */
  lemma ShareExact(ref: seq<nat>, pool: seq<int>, tab: Tables, held: set<int>, t: int, i: int, pte: Pte)
    requires Exact(ref, pool, tab, held) && t in tab && i !in tab[t]
    requires Mappable(pte.frame, |ref|, held) && ref[pte.frame] > 0
    ensures Exact(ref[pte.frame := ref[pte.frame] + 1], pool, tab[t := tab[t][i := pte]], held)
  {
    hide Users, Distinct;
    var tab' := tab[t := tab[t][i := pte]];
    forall f | 0 <= f < |ref| && f !in held
      ensures ref[pte.frame := ref[pte.frame] + 1][f] == |Users(tab', f)|
    {
      UsersAfterSet(tab, t, i, pte, f);
    }
    forall u, j | u in tab' && j in tab'[u] ensures Mappable(tab'[u][j].frame, |ref|, held) {
      if u != t || j != i {
        var e := tab[u][j];
        assert tab'[u][j] == e;
      }
    }
  }

  /** The first entry for a frame that was just allocated. */
  lemma MapExact(ref: seq<nat>, pool: seq<int>, tab: Tables, held: set<int>, t: int, i: int, pte: Pte)
    requires Exact(ref, pool, tab, held) && t in tab && i !in tab[t]
    requires pte.frame in held && pte.frame !in tab
    ensures Exact(ref, pool, tab[t := tab[t][i := pte]], held - {pte.frame})
  {
    var tab' := tab[t := tab[t][i := pte]];
    assert Users(tab, pte.frame) == {};
    forall f | 0 <= f < |ref| && f !in held - {pte.frame} ensures ref[f] == |Users(tab', f)| {
      UsersAfterSet(tab, t, i, pte, f);
    }
  }

  /** Reference count and pool after kfree_frame. */
  function Dropped(ref: seq<nat>, f: int): seq<nat>
    requires 0 <= f < |ref| && ref[f] > 0
  {
    ref[f := ref[f] - 1]
  }

  function Refilled(ref: seq<nat>, pool: seq<int>, f: int): seq<int>
    requires 0 <= f < |ref| && ref[f] > 0
  {
    if ref[f] == 1 then [f] + pool else pool
  }

  /** The pool after kfree_frame still lists each frame without references once. */
  lemma RefilledPool(ref: seq<nat>, pool: seq<int>, f: int)
    requires Distinct(pool) && (forall g :: g in pool ==> 0 <= g < |ref|)
    requires forall g :: 0 <= g < |ref| ==> (g in pool <==> ref[g] == 0)
    requires 0 <= f < |ref| && ref[f] > 0
    ensures var ref', pool' := Dropped(ref, f), Refilled(ref, pool, f);
            && Distinct(pool') && (forall g :: g in pool' ==> 0 <= g < |ref'|)
            && forall g :: 0 <= g < |ref'| ==> (g in pool' <==> ref'[g] == 0)
  {
  }

  lemma ClearedEntries(ref: seq<nat>, tab: Tables, held: set<int>, t: int, i: int)
    requires t in tab && i in tab[t] && tab.Keys <= held
    requires forall t, i :: t in tab && i in tab[t] ==> Mappable(tab[t][i].frame, |ref|, held)
    ensures var tab' := tab[t := tab[t] - {i}];
            tab'.Keys == tab.Keys && forall t, i :: t in tab' && i in tab'[t] ==> Mappable(tab'[t][i].frame, |ref|, held)
  {
  }

  /** Clearing an entry and dropping its reference; the frame is freed with its last entry, not before. */
  lemma UnmapExact(ref: seq<nat>, pool: seq<int>, tab: Tables, held: set<int>, t: int, i: int)
    requires Exact(ref, pool, tab, held) && t in tab && i in tab[t]
    ensures var f := tab[t][i].frame;
            && 0 <= f < |ref| && ref[f] > 0
            && Exact(Dropped(ref, f), Refilled(ref, pool, f), tab[t := tab[t] - {i}], held)
  {
    hide Users, Distinct;
    var f := tab[t][i].frame;
    assert Mappable(f, |ref|, held);
    UsersAfterClear(tab, t, i, f);
    assert (t, i) in Users(tab, f);
    RefilledPool(ref, pool, f);
    ClearedEntries(ref, tab, held, t, i);
    var tab' := tab[t := tab[t] - {i}];
    forall g | 0 <= g < |ref| && g !in held ensures Dropped(ref, f)[g] == |Users(tab', g)| {
      UsersAfterClear(tab, t, i, g);
    }
  }

  /** Changing the permission bits of an entry. */
  lemma ProtectExact(ref: seq<nat>, pool: seq<int>, tab: Tables, held: set<int>, t: int, i: int, pte: Pte)
    requires Exact(ref, pool, tab, held) && t in tab && i in tab[t] && pte.frame == tab[t][i].frame
    ensures Exact(ref, pool, tab[t := tab[t][i := pte]], held)
  {
    var tab' := tab[t := tab[t][i := pte]];
    forall f | 0 <= f < |ref| ensures Users(tab', f) == Users(tab, f) {
      assert tab'[t][i] == pte;
    }
  }

  lemma NewTableExact(ref: seq<nat>, pool: seq<int>, tab: Tables, held: set<int>, t: int)
    requires Exact(ref, pool, tab, held) && t in held && t !in tab
    ensures Exact(ref, pool, tab[t := map[]], held)
  {
    var tab' := tab[t := map[]];
    forall f | 0 <= f < |ref| ensures Users(tab', f) == Users(tab, f) {
    }
  }

  lemma UsersAfterDrop(tab: Tables, t: int, f: int)
    requires t in tab && tab[t] == map[]
    ensures Users(tab - {t}, f) == Users(tab, f)
  {
  }

  lemma DropTableExact(ref: seq<nat>, pool: seq<int>, tab: Tables, held: set<int>, t: int)
    requires Exact(ref, pool, tab, held) && t in tab && tab[t] == map[]
    ensures Exact(ref, pool, tab - {t}, held)
  {
    hide Users, Distinct;
    forall f | 0 <= f < |ref| ensures Users(tab - {t}, f) == Users(tab, f) { UsersAfterDrop(tab, t, f); }
  }

  /** A frame with reference count 1 has exactly one entry, so an entry with such a frame is its only user. */
  lemma SoleUser(ref: seq<nat>, pool: seq<int>, tab: Tables, held: set<int>, t: int, i: int, t': int, i': int)
    requires Exact(ref, pool, tab, held) && t in tab && i in tab[t] && t' in tab && i' in tab[t']
    requires tab[t][i].frame == tab[t'][i'].frame && ref[tab[t][i].frame] == 1
    ensures t == t' && i == i'
  {
    var f := tab[t][i].frame;
    assert Mappable(f, |ref|, held);
    assert (t, i) in Users(tab, f) && (t', i') in Users(tab, f);
    SubsetSize({(t, i), (t', i')}, Users(tab, f));
  }

  lemma {:induction false} SubsetSize<T>(a: set<T>, b: set<T>)
    requires a <= b
    ensures |a| <= |b|
  {
    assert |b| == |a| + |b - a| by { assert b == a + (b - a); }
  }

  /** A mapped frame is never in the pool. */
  lemma MappedNotFree(ref: seq<nat>, pool: seq<int>, tab: Tables, held: set<int>, t: int, i: int)
    requires Exact(ref, pool, tab, held) && t in tab && i in tab[t]
    ensures Mappable(tab[t][i].frame, |ref|, held) && ref[tab[t][i].frame] > 0 && tab[t][i].frame !in pool
  {
    assert (t, i) in Users(tab, tab[t][i].frame);
  }
}
