/** The process table of the kernel and the forest its parent, first-child and next-sibling pointers form. */
module ProcessForest {

  const TABLE_MAX: nat := 1024
  const U64: nat := 0x1_0000_0000_0000_0000

  datatype Phase = Alive | Zombie

  /** A pointer to a process record is its address, NULL or a process's. */
  type Ref = nat
  const NULL: Ref := 0
  type Proc = p: Ref | p != NULL witness 1

  /** The record of a process without its pointers. `ppid` is the parent number on its leader thread, if it has one. */
  datatype Info = Info(pid: nat, phase: Phase, status: int, pgid: int, sid: int, leader: bool, ppid: int)

  /** A C cast of a 64-bit process number to a 32-bit int. */
  function ToInt(x: nat): int
  {
    var low := x % 0x1_0000_0000;
    if low < 0x8000_0000 then low else low - 0x1_0000_0000
  }

  function Head(s: seq<Proc>): (p: Ref)
  {
    if s == [] then NULL else s[0]
  }

  /** The pointers of the live processes. */
  datatype Links = Links(par: map<Proc, Ref>, first: map<Proc, Ref>, next: map<Proc, Ref>)

  /** A child list of p: distinct processes with p for a parent, each pointing at the next, the last at none. */
  ghost predicate Row(l: Links, p: Proc, row: seq<Proc>)
  {
    row != [] ==>
      && row[0] in l.par && l.par[row[0]] == p
      && row[0] in l.next && l.next[row[0]] == Head(row[1..])
      && row[0] !in row[1..] && Row(l, p, row[1..])
  }

  type Lists = map<Proc, seq<Proc>>

  ghost predicate Rows(l: Links, kids: Lists)
  {
    forall p :: p in kids ==> Row(l, p, kids[p])
  }

  /** `open` is the one process, if any, whose head pointer is cleared while its list is being moved. */
  ghost predicate Heads(l: Links, kids: Lists, open: Ref)
  {
    forall p :: p in kids ==> p in l.first && l.first[p] == if p == open then NULL else Head(kids[p])
  }

  ghost predicate Listed(l: Links, kids: Lists)
  {
    forall q :: q in l.par && l.par[q] != NULL ==> l.par[q] in kids && q in kids[l.par[q]]
  }

  ghost predicate Ended(l: Links)
  {
    forall q :: q in l.par && l.par[q] == NULL ==> q in l.next && l.next[q] == NULL
  }

  ghost predicate Keyed(l: Links, kids: Lists)
  {
    kids.Keys == l.par.Keys == l.first.Keys == l.next.Keys
  }

  /** Each process owns one list, holding each of its children once and nothing else. */
  ghost predicate Linked(l: Links, kids: Lists, open: Ref)
  {
    Keyed(l, kids) && Rows(l, kids) && Heads(l, kids, open) && Listed(l, kids) && Ended(l)
  }

  lemma KidsKeys(l: Links, kids: Lists, open: Ref)
    requires Linked(l, kids, open)
    ensures kids.Keys == l.par.Keys == l.next.Keys == l.first.Keys
  {
  }

  lemma {:induction false} InRow(l: Links, p: Proc, row: seq<Proc>, q: Proc)
    requires Row(l, p, row) && q in row
    ensures q in l.par && q in l.next && l.par[q] == p
  {
    if q != row[0] { InRow(l, p, row[1..], q); }
  }

  lemma {:induction false} RowFrame(l: Links, l': Links, p: Proc, row: seq<Proc>)
    requires Row(l, p, row)
    requires forall q :: q in row && q in l.par && q in l.next ==>
      q in l'.par && q in l'.next && l'.par[q] == l.par[q] && l'.next[q] == l.next[q]
    ensures Row(l', p, row)
  {
    if row != [] { RowFrame(l, l', p, row[1..]); }
  }

  lemma {:induction false} RowTail(l: Links, p: Proc, row: seq<Proc>, i: nat)
    requires Row(l, p, row) && i <= |row|
    ensures Row(l, p, row[i..])
  {
    if i > 0 {
      RowTail(l, p, row[1..], i - 1);
      assert row[1..][i - 1..] == row[i..];
    }
  }

  function Pushed(l: Links, parent: Proc, child: Proc): Links
    requires parent in l.first
  {
    Links(l.par[child := parent], l.first[parent := child], l.next[child := l.first[parent]])
  }

  lemma PushRow(l: Links, kids: Lists, open: Ref, parent: Proc, child: Proc, p: Proc)
    requires Linked(l, kids, open) && parent in kids && child in kids && l.par[child] == NULL && parent != open
    requires p in kids
    ensures Row(Pushed(l, parent, child), p, if p == parent then [child] + kids[p] else kids[p])
  {
    hide Listed, Ended;
    var l', row := Pushed(l, parent, child), kids[p];
    if child in row { InRow(l, p, row, child); }
    RowFrame(l, l', p, row);
    assert ([child] + row)[1..] == row;
  }

  lemma PushKeyed(l: Links, kids: Lists, parent: Proc, child: Proc, row: seq<Proc>)
    requires Keyed(l, kids) && parent in kids && child in kids
    ensures Keyed(Pushed(l, parent, child), kids[parent := row])
  {
  }

  lemma PushListed(l: Links, kids: Lists, parent: Proc, child: Proc)
    requires Listed(l, kids) && parent in kids && parent in l.first
    ensures Listed(Pushed(l, parent, child), kids[parent := [child] + kids[parent]])
  {
  }

  lemma PushLinked(l: Links, kids: Lists, open: Ref, parent: Proc, child: Proc)
    requires Linked(l, kids, open) && parent in kids && child in kids && l.par[child] == NULL && parent != open
    ensures Linked(Pushed(l, parent, child), kids[parent := [child] + kids[parent]], open)
  {
    hide Row;
    KidsKeys(l, kids, open);
    PushKeyed(l, kids, parent, child, [child] + kids[parent]);
    var l', kids' := Pushed(l, parent, child), kids[parent := [child] + kids[parent]];
    assert Rows(l', kids') by {
      forall p | p in kids ensures Row(l', p, kids'[p]) { PushRow(l, kids, open, parent, child, p); }
    }
    PushListed(l, kids, parent, child);
    hide Rows, Listed, Keyed;
    assert Heads(l', kids', open);
    assert Ended(l');
  }

  function Without(s: seq<Proc>, c: Proc): (t: seq<Proc>)
  {
    if s == [] then [] else if s[0] == c then s[1..] else [s[0]] + Without(s[1..], c)
  }

  lemma {:induction false} WithoutIn(s: seq<Proc>, c: Proc, q: Proc)
    requires q in s && q != c
    ensures q in Without(s, c)
  {
    if s[0] != c && s[0] != q { WithoutIn(s[1..], c, q); }
  }

  /** The process before c on a list. */
  function Before(s: seq<Proc>, c: Proc): Ref
  {
    if |s| < 2 || s[0] == c then NULL else if s[1] == c then s[0] else Before(s[1..], c)
  }

  lemma {:induction false} BeforeAt(l: Links, p: Proc, s: seq<Proc>, i: nat)
    requires Row(l, p, s) && i < |s|
    ensures Before(s, s[i]) == if i == 0 then NULL else s[i - 1]
  {
    if i > 0 {
      assert s[0] != s[i] by { assert s[1..][i - 1] == s[i]; }
      if i > 1 {
        assert s[1] != s[i] by { assert s[1..][1..][i - 2] == s[i] && s[1] == s[1..][0]; }
        BeforeAt(l, p, s[1..], i - 1);
      }
    }
  }

  lemma {:induction false} BeforeIn(s: seq<Proc>, c: Proc)
    ensures Before(s, c) != NULL ==> Before(s, c) in s && c in s
  {
    if |s| >= 2 && s[0] != c && s[1] != c { BeforeIn(s[1..], c); }
  }

  function Cut(l: Links, parent: Proc, c: Proc, prev: Ref): Links
    requires c in l.next
  {
    if prev == NULL then Links(l.par[c := NULL], l.first[parent := l.next[c]], l.next[c := NULL])
    else Links(l.par[c := NULL], l.first, l.next[prev := l.next[c]][c := NULL])
  }

  lemma {:induction false} CutRow(l: Links, p: Proc, row: seq<Proc>, parent: Proc, c: Proc)
    requires Row(l, p, row) && c in row && c in l.next
    ensures Row(Cut(l, parent, c, Before(row, c)), p, Without(row, c))
  {
    var l', tail := Cut(l, parent, c, Before(row, c)), row[1..];
    if row[0] == c {
      RowFrame(l, l', p, tail);
    } else if row[1] == c {
      RowFrame(l, l', p, tail[1..]);
      assert Without(row, c)[1..] == tail[1..];
    } else {
      CutRow(l, p, tail, parent, c);
      BeforeIn(tail, c);
      SameRow(Cut(l, parent, c, Before(tail, c)), l', p, Without(tail, c));
      assert Without(row, c)[1..] == Without(tail, c);
      WithoutSub(tail, c);
    }
  }

  lemma {:induction false} SameRow(l: Links, l': Links, p: Proc, row: seq<Proc>)
    requires Row(l, p, row) && l.par == l'.par && l.next == l'.next
    ensures Row(l', p, row)
  {
    if row != [] { SameRow(l, l', p, row[1..]); }
  }

  lemma {:induction false} WithoutSub(s: seq<Proc>, c: Proc)
    ensures forall q :: q in Without(s, c) ==> q in s
  {
    if s != [] && s[0] != c { WithoutSub(s[1..], c); }
  }

  lemma {:induction false} FirstHasNoBefore(row: seq<Proc>, c: Proc)
    requires c in row
    ensures Before(row, c) == NULL <==> row[0] == c
  {
    if |row| >= 2 && row[0] != c && row[1] != c { FirstHasNoBefore(row[1..], c); }
  }

  lemma CutRows(l: Links, kids: Lists, parent: Proc, c: Proc, prev: Ref)
    requires Rows(l, kids) && parent in kids && c in kids[parent] && c in l.next && prev == Before(kids[parent], c)
    ensures Rows(Cut(l, parent, c, prev), kids[parent := Without(kids[parent], c)])
  {
    hide Row, Before, Without;
    var row := kids[parent];
    assert Row(l, parent, row);
    BeforeIn(row, c);
    var l', kids' := Cut(l, parent, c, prev), kids[parent := Without(row, c)];
    forall p | p in kids ensures Row(l', p, kids'[p]) {
      assert Row(l, p, kids[p]);
      if p == parent {
        CutRow(l, p, row, parent, c);
      } else {
        forall q | q in kids[p] ensures q !in row {
          if q in row { InRow(l, p, kids[p], q); InRow(l, parent, row, q); }
        }
        RowFrame(l, l', p, kids[p]);
      }
    }
  }

  lemma CutHeads(l: Links, kids: Lists, parent: Proc, c: Proc, prev: Ref)
    requires Heads(l, kids, NULL) && parent in kids && c in kids[parent] && c in l.next
    requires Row(l, parent, kids[parent]) && prev == Before(kids[parent], c)
    ensures Heads(Cut(l, parent, c, prev), kids[parent := Without(kids[parent], c)], NULL)
  {
    FirstHasNoBefore(kids[parent], c);
  }

  lemma CutListed(l: Links, kids: Lists, parent: Proc, c: Proc, prev: Ref)
    requires Listed(l, kids) && parent in kids && c in l.next
    ensures Listed(Cut(l, parent, c, prev), kids[parent := Without(kids[parent], c)])
  {
    var l', kids' := Cut(l, parent, c, prev), kids[parent := Without(kids[parent], c)];
    forall q | q in l'.par && l'.par[q] != NULL ensures l'.par[q] in kids' && q in kids'[l'.par[q]] {
      assert q in kids[l.par[q]];
      if l.par[q] == parent { WithoutIn(kids[parent], c, q); }
    }
  }

  lemma CutEnded(l: Links, parent: Proc, c: Proc, prev: Ref)
    requires Ended(l) && c in l.next
    requires prev != NULL ==> prev in l.par && l.par[prev] != NULL
    ensures Ended(Cut(l, parent, c, prev))
  {
  }

  lemma CutParent(l: Links, parent: Proc, c: Proc, prev: Ref)
    requires c in l.next
    ensures Cut(l, parent, c, prev).par == l.par[c := NULL]
  {
  }

  lemma CutKeyed(l: Links, kids: Lists, parent: Proc, c: Proc, prev: Ref, row: seq<Proc>)
    requires Keyed(l, kids) && parent in kids && c in l.next && (prev != NULL ==> prev in l.next)
    ensures Keyed(Cut(l, parent, c, prev), kids[parent := row])
  {
  }

  lemma CutLinked(l: Links, kids: Lists, parent: Proc, c: Proc, prev: Ref)
    requires Linked(l, kids, NULL) && parent in kids && c in kids[parent] && prev == Before(kids[parent], c)
    ensures c in l.next && Linked(Cut(l, parent, c, prev), kids[parent := Without(kids[parent], c)], NULL)
  {
    hide Row, Before, Without, Heads, Listed, Ended, Keyed;
    assert Row(l, parent, kids[parent]);
    InRow(l, parent, kids[parent], c);
    BeforeIn(kids[parent], c);
    if prev != NULL { InRow(l, parent, kids[parent], prev); }
    CutRows(l, kids, parent, c, prev);
    CutHeads(l, kids, parent, c, prev);
    CutListed(l, kids, parent, c, prev);
    CutEnded(l, parent, c, prev);
    CutKeyed(l, kids, parent, c, prev, Without(kids[parent], c));
  }

  function Added(l: Links, p: Proc): Links
  {
    Links(l.par[p := NULL], l.first[p := NULL], l.next[p := NULL])
  }

  lemma AddRows(l: Links, kids: Lists, p: Proc)
    requires Rows(l, kids) && p !in kids && p !in l.par && p !in l.next
    ensures Rows(Added(l, p), kids[p := []])
  {
    hide Row;
    var l', kids' := Added(l, p), kids[p := []];
    forall q | q in kids' ensures Row(l', q, kids'[q]) {
      if q != p { RowFrame(l, l', q, kids[q]); } else { EmptyRow(l', p); }
    }
  }

  lemma AddKeyed(l: Links, kids: Lists, p: Proc)
    requires Keyed(l, kids)
    ensures Keyed(Added(l, p), kids[p := []])
  {
  }

  lemma AddHeads(l: Links, kids: Lists, p: Proc)
    requires Heads(l, kids, NULL)
    ensures Heads(Added(l, p), kids[p := []], NULL)
  {
  }

  lemma AddListed(l: Links, kids: Lists, p: Proc)
    requires Listed(l, kids) && p !in kids
    ensures Listed(Added(l, p), kids[p := []])
  {
  }

  lemma AddLinked(l: Links, kids: Lists, p: Proc)
    requires Linked(l, kids, NULL) && p !in kids
    ensures Linked(Added(l, p), kids[p := []], NULL)
  {
    KidsKeys(l, kids, NULL);
    AddRows(l, kids, p);
    AddKeyed(l, kids, p);
    AddHeads(l, kids, p);
    AddListed(l, kids, p);
    hide Rows, Keyed, Heads, Listed;
    assert Ended(Added(l, p));
  }

  lemma EmptyRow(l: Links, p: Proc)
    ensures Row(l, p, [])
  {
  }

  function Dropped(l: Links, c: Proc): Links
  {
    Links(l.par - {c}, l.first - {c}, l.next - {c})
  }

  lemma DropParent(l: Links, c: Proc)
    ensures Dropped(l, c).par == l.par - {c}
  {
  }

  lemma DropRows(l: Links, kids: Lists, c: Proc)
    requires Linked(l, kids, NULL) && c in kids && l.par[c] == NULL
    ensures Rows(Dropped(l, c), kids - {c})
  {
    hide Row, Listed, Heads, Ended;
    forall q | q in kids - {c} ensures Row(Dropped(l, c), q, kids[q]) {
      if c in kids[q] { InRow(l, q, kids[q], c); }
      RowFrame(l, Dropped(l, c), q, kids[q]);
    }
  }

  lemma DropKeyed(l: Links, kids: Lists, c: Proc)
    requires Keyed(l, kids)
    ensures Keyed(Dropped(l, c), kids - {c})
  {
  }

  /** Taking an unattached process away leaves a forest exactly when it had no children. */
  lemma DropLinked(l: Links, kids: Lists, c: Proc)
    requires Linked(l, kids, NULL) && c in kids && l.par[c] == NULL
    ensures Linked(Dropped(l, c), kids - {c}, NULL) <==> kids[c] == []
  {
    DropRows(l, kids, c);
    DropKeyed(l, kids, c);
    DropListed(l, kids, c);
    hide Rows, Keyed, Listed;
    assert Heads(Dropped(l, c), kids - {c}, NULL) && Ended(Dropped(l, c));
  }

  lemma DropListed(l: Links, kids: Lists, c: Proc)
    requires Linked(l, kids, NULL) && c in kids && l.par[c] == NULL
    ensures Listed(Dropped(l, c), kids - {c}) <==> kids[c] == []
  {
    hide Row, Heads, Ended;
    var l', kids' := Dropped(l, c), kids - {c};
    if kids[c] == [] {
      forall q | q in l'.par && l'.par[q] != NULL ensures l'.par[q] in kids' && q in kids'[l'.par[q]] {
        assert q in kids[l.par[q]];
      }
    } else {
      var q := kids[c][0];
      InRow(l, c, kids[c], q);
      assert q in l'.par && l'.par[q] == c && c !in kids';
    }
  }

  /** The table holds each live process in one slot, the recorded one. */
  ghost predicate Tabled(table: seq<Ref>, slots: map<Proc, nat>)
  {
    && |table| == TABLE_MAX
    && (forall p :: p in slots ==> slots[p] < |table| && table[slots[p]] == p)
    && (forall i :: 0 <= i < |table| && table[i] != NULL ==> table[i] in slots && slots[table[i]] == i)
  }

  /** Every process's ancestors: its parent and the ancestors of that. No process is its own ancestor. */
  ghost predicate Rooted(par: map<Proc, Ref>, anc: map<Proc, set<Proc>>)
  {
    && anc.Keys == par.Keys
    && (forall q :: q in par ==> q !in anc[q])
    && (forall q :: q in par && par[q] == NULL ==> anc[q] == {})
    && (forall q :: q in par && par[q] != NULL ==> par[q] in par && anc[q] == anc[par[q]] + {par[q]})
  }

  ghost predicate Acyclic(par: map<Proc, Ref>)
  {
    exists anc :: Rooted(par, anc)
  }

  /** A process with its ancestors. */
  ghost function Lineage(anc: map<Proc, set<Proc>>, p: Ref): set<Proc>
    requires p != NULL ==> p in anc
  {
    if p == NULL then {} else anc[p] + {p as Proc}
  }

  ghost predicate Beneath(anc: map<Proc, set<Proc>>, tops: set<Proc>, d: Proc)
    requires d in anc
  {
    d in tops || anc[d] * tops != {}
  }

  /** Ancestors after the processes in tops, all with the ancestors base, move below the ancestors above. */
  ghost function Rebased(anc: map<Proc, set<Proc>>, tops: set<Proc>, base: set<Proc>, above: set<Proc>)
    : map<Proc, set<Proc>>
  {
    map d | d in anc :: if Beneath(anc, tops, d) then (anc[d] - base) + above else anc[d]
  }

  lemma {:induction false} AncestorsNest(par: map<Proc, Ref>, anc: map<Proc, set<Proc>>, x: Proc, y: Proc)
    requires Rooted(par, anc) && y in par && x in anc[y]
    ensures x in par && anc[x] < anc[y]
    decreases anc[y]
  {
    var up := par[y];
    if x != up { AncestorsNest(par, anc, x, up); }
    assert up in anc[y] && up !in anc[up];
  }

  /** The processes between a moved one and its top are none of the old ancestors. */
  lemma BaseAbove(par: map<Proc, Ref>, anc: map<Proc, set<Proc>>, tops: set<Proc>, base: set<Proc>, e: Proc)
    requires Rooted(par, anc) && e in par && tops <= par.Keys
    requires forall c :: c in tops ==> anc[c] == base
    requires Beneath(anc, tops, e)
    ensures e !in base
  {
    if e in base {
      var c :| c in tops && (c == e || c in anc[e]);
      if c != e { AncestorsNest(par, anc, e, c); }
      assert false;
    }
  }

  /** The forest stays one when subtrees move below a process outside all of them, or to the top. */
  lemma MoveRooted(par: map<Proc, Ref>, anc: map<Proc, set<Proc>>, tops: set<Proc>,
                   base: set<Proc>, to: Ref, par': map<Proc, Ref>)
    requires Rooted(par, anc) && tops <= par.Keys
    requires forall c :: c in tops ==> anc[c] == base
    requires to != NULL ==> to in par && !Beneath(anc, tops, to)
    requires par'.Keys == par.Keys
    requires forall q :: q in par ==> par'[q] == if q in tops then to else par[q]
    ensures Rooted(par', Rebased(anc, tops, base, Lineage(anc, to)))
  {
    var above := Lineage(anc, to);
    var anc' := Rebased(anc, tops, base, above);
    forall q | q in par
      ensures q !in anc'[q]
      ensures par'[q] == NULL ==> anc'[q] == {}
      ensures par'[q] != NULL ==> par'[q] in par && anc'[q] == anc'[par'[q]] + {par'[q]}
    {
      if Beneath(anc, tops, q) {
        if q in above { OutsideAbove(par, anc, tops, to, q); }
        if q !in tops {
          var up := par[q];
          assert anc[q] * tops != {};
          assert Beneath(anc, tops, up) by {
            var c :| c in anc[q] && c in tops;
          }
          BaseAbove(par, anc, tops, base, up);
        }
      } else if par[q] != NULL {
        assert !Beneath(anc, tops, par[q]);
      }
    }
  }

  lemma OutsideAbove(par: map<Proc, Ref>, anc: map<Proc, set<Proc>>, tops: set<Proc>, to: Ref, q: Proc)
    requires Rooted(par, anc)
    requires to != NULL && to in par && !Beneath(anc, tops, to)
    requires q == to || q in anc[to]
    requires q in par
    ensures !Beneath(anc, tops, q)
  {
    if q != to { AncestorsNest(par, anc, q, to); }
  }

  lemma {:induction false} AncestorsLive(par: map<Proc, Ref>, anc: map<Proc, set<Proc>>, x: Proc, y: Proc)
    requires Rooted(par, anc) && y in par && x in anc[y]
    ensures x in par && exists z :: z in par && par[z] == x
    decreases anc[y]
  {
    if x != par[y] {
      assert par[y] !in anc[par[y]];
      AncestorsLive(par, anc, x, par[y]);
    }
  }

  lemma AddRooted(par: map<Proc, Ref>, anc: map<Proc, set<Proc>>, p: Proc, to: Ref)
    requires Rooted(par, anc) && p !in par && (to != NULL ==> to in par)
    ensures (to != NULL ==> to in anc) && Rooted(par[p := to], anc[p := Lineage(anc, to)])
  {
    forall q | q in par ensures p !in anc[q] {
      if p in anc[q] { AncestorsLive(par, anc, p, q); }
    }
  }

  lemma DropRooted(par: map<Proc, Ref>, anc: map<Proc, set<Proc>>, c: Proc)
    requires Rooted(par, anc) && c in par && forall q :: q in par ==> par[q] != c
    ensures Rooted(par - {c}, anc - {c})
  {
  }

  function Reversed(s: seq<Proc>): (t: seq<Proc>)
  {
    if s == [] then [] else Reversed(s[1..]) + [s[0]]
  }

  lemma {:induction false} ReversedStep(s: seq<Proc>, i: nat)
    requires i < |s|
    ensures Reversed(s[..i + 1]) == [s[i]] + Reversed(s[..i])
  {
    if i == 0 {
      assert s[..1] == [s[0]];
    } else {
      ReversedStep(s[1..], i - 1);
      assert s[..i + 1][1..] == s[1..][..i] && s[..i][1..] == s[1..][..i - 1];
    }
  }

  /** Rows, Listed and Ended look at the parent and sibling pointers alone. */
  lemma SameEnds(l: Links, l': Links, kids: Lists)
    requires Rows(l, kids) && Listed(l, kids) && Ended(l) && l'.par == l.par && l'.next == l.next
    ensures Rows(l', kids) && Listed(l', kids) && Ended(l')
  {
    hide Row;
    forall p | p in kids ensures Row(l', p, kids[p]) { SameRow(l, l', p, kids[p]); }
  }

  /** Clear a head pointer, and take the list apart from the front. */
  lemma OpenLinked(l: Links, kids: Lists, p: Proc)
    requires Linked(l, kids, NULL) && p in kids
    ensures Linked(l.(first := l.first[p := NULL]), kids, p)
  {
    hide Rows, Listed, Ended;
    SameEnds(l, l.(first := l.first[p := NULL]), kids);
  }

  lemma CloseLinked(l: Links, kids: Lists, p: Proc)
    requires Linked(l, kids, p) && p in kids && kids[p] == []
    ensures Linked(l, kids, NULL)
  {
    hide Rows, Listed, Ended;
  }

  function Loosened(l: Links, c: Proc): Links
  {
    Links(l.par[c := NULL], l.first, l.next[c := NULL])
  }

  lemma HeadOffHeads(l: Links, kids: Lists, p: Proc, c: Proc, rest: seq<Proc>)
    requires Heads(l, kids, p) && p in kids && Keyed(l, kids) && c in l.par
    ensures Heads(Loosened(l, c), kids[p := rest], p) && Keyed(Loosened(l, c), kids[p := rest])
  {
  }

  lemma HeadOff(l: Links, kids: Lists, p: Proc)
    requires Linked(l, kids, p) && p in kids && kids[p] != []
    ensures kids[p][0] in l.next && l.next[kids[p][0]] == Head(kids[p][1..])
    ensures Linked(Loosened(l, kids[p][0]), kids[p := kids[p][1..]], p)
  {
    hide Listed, Ended;
    var c, rest := kids[p][0], kids[p][1..];
    var l' := Cut(l, p, c, NULL);
    assert Row(l, p, kids[p]) && Before(kids[p], c) == NULL && Without(kids[p], c) == rest;
    assert c in l.par && c in l.next && l.next[c] == Head(rest);
    hide Keyed, Heads, Rows, Row, Before, Without;
    CutRows(l, kids, p, c, NULL);
    CutListed(l, kids, p, c, NULL);
    CutEnded(l, p, c, NULL);
    SameEnds(l', Loosened(l, c), kids[p := rest]);
    HeadOffHeads(l, kids, p, c, rest);
  }

  /** The child lists when i children of p have moved, one by one, to the head of another list or to none. */
  ghost function MovedLists(kids: Lists, p: Proc, to: Ref, i: nat): Lists
    requires p in kids && i <= |kids[p]| && (to != NULL ==> to in kids)
  {
    var left := kids[p := kids[p][i..]];
    if to == NULL then left else left[to := Reversed(kids[p][..i]) + kids[to]]
  }

  /** The parent numbers kept with the leader threads of the children in row, replaced. */
  function Told(info: map<Proc, Info>, row: seq<Proc>, number: int): map<Proc, Info>
  {
    map p | p in info :: if p in row && info[p].leader then info[p].(ppid := number) else info[p]
  }

  lemma ToldEach(info: map<Proc, Info>, row: seq<Proc>, number: int)
    ensures Told(info, row, number).Keys == info.Keys
    ensures forall p :: p in info ==> Told(info, row, number)[p].pid == info[p].pid
    ensures forall p :: p in row && p in info && Told(info, row, number)[p].leader ==>
              Told(info, row, number)[p].ppid == number
  {
  }

  /** No two processes have the same number. */
  ghost predicate PidsApart(info: map<Proc, Info>)
  {
    forall p, q :: p in info && q in info && p != q ==> info[p].pid != info[q].pid
  }

  ghost predicate PidsOk(info: map<Proc, Info>, nextPid: nat)
  {
    && 1 <= nextPid
    && (forall p :: p in info ==> 1 <= info[p].pid < nextPid)
    && PidsApart(info)
  }

  ghost predicate Aligned(slots: map<Proc, nat>, info: map<Proc, Info>, par: map<Proc, Ref>)
  {
    slots.Keys == info.Keys == par.Keys
  }

  lemma OnRecord(slots: map<Proc, nat>, info: map<Proc, Info>, l: Links, kids: Lists, p: Proc)
    requires Aligned(slots, info, l.par) && Linked(l, kids, NULL)
    ensures p in info <==> p in slots
    ensures p in info <==> p in kids
    ensures p in info <==> p in l.par
  {
  }

  lemma AlignedAdd(slots: map<Proc, nat>, info: map<Proc, Info>, par: map<Proc, Ref>, p: Proc, slot: nat, record: Info,
                   to: Ref)
    requires Aligned(slots, info, par)
    ensures Aligned(slots[p := slot], info[p := record], par[p := to])
  {
  }

  /** The number a new process gets; zero is skipped. */
  function Number(nextPid: nat): nat
  {
    if nextPid == 0 then 1 else nextPid
  }

  /** A new process starts its own group and session, or joins those of its parent. */
  function Record(info: map<Proc, Info>, number: nat, parent: Ref): Info
    requires parent != NULL ==> parent in info
  {
    var own := Info(number, Alive, 0, ToInt(number), ToInt(number), false, 0);
    if parent == NULL then own else own.(pgid := info[parent].pgid, sid := info[parent].sid)
  }

  lemma RecordIs(info: map<Proc, Info>, number: nat, parent: Ref)
    requires parent != NULL ==> parent in info
    ensures Record(info, number, parent).pid == number && Record(info, number, parent).phase == Alive
    ensures Record(info, number, parent).pgid == if parent == NULL then ToInt(number) else info[parent].pgid
    ensures Record(info, number, parent).sid == if parent == NULL then ToInt(number) else info[parent].sid
  {
  }

  function Born(l: Links, p: Proc, parent: Ref): Links
    requires parent != NULL ==> parent in l.first
  {
    if parent == NULL then Added(l, p) else Pushed(Added(l, p), parent, p)
  }

  /** A new process has no children and comes first among its parent's. */
  ghost function BornLists(kids: Lists, p: Proc, parent: Ref): Lists
    requires parent != NULL ==> parent in kids
  {
    if parent == NULL then kids[p := []] else kids[p := []][parent := [p] + kids[parent]]
  }

  lemma BornLinked(l: Links, kids: Lists, p: Proc, parent: Ref)
    requires Linked(l, kids, NULL) && p !in kids && (parent != NULL ==> parent in kids)
    ensures parent != NULL ==> parent in l.first
    ensures Linked(Born(l, p, parent), BornLists(kids, p, parent), NULL)
    ensures Born(l, p, parent).par == l.par[p := parent]
  {
    hide Linked;
    KidsKeys(l, kids, NULL);
    AddLinked(l, kids, p);
    if parent != NULL { PushLinked(Added(l, p), kids[p := []], NULL, parent, p); }
  }

  /** Numbers stay apart and below the counter exactly as long as the counter does not wrap. */
  lemma CreateKeepsPids(info: map<Proc, Info>, nextPid: nat, p: Proc, parent: Ref)
    requires p !in info && nextPid < U64 && PidsOk(info, nextPid) && (parent != NULL ==> parent in info)
    ensures PidsOk(info[p := Record(info, Number(nextPid), parent)], (Number(nextPid) + 1) % U64) <==> nextPid + 1 < U64
  {
    var info' := info[p := Record(info, Number(nextPid), parent)];
    assert info'[p].pid == nextPid;
  }

  /** The number is in use. */
  ghost predicate Carried(info: map<Proc, Info>, number: nat)
  {
    exists q :: q in info && info[q].pid == number
  }

  /** Whatever the counter: numbers stay apart if and only if nobody has the one that is drawn. */
  lemma CreateKeepsApart(info: map<Proc, Info>, nextPid: nat, p: Proc, parent: Ref)
    requires p !in info && PidsApart(info) && (parent != NULL ==> parent in info)
    ensures PidsApart(info[p := Record(info, Number(nextPid), parent)]) <==> !Carried(info, Number(nextPid))
  {
    var info' := info[p := Record(info, Number(nextPid), parent)];
    if q :| q in info && info[q].pid == Number(nextPid) {
      assert info'[q].pid == info'[p].pid && q != p;
    } else {
      assert forall q :: q in info ==> info'[q] == info[q];
    }
  }

  /** After the wrap, with process 1 alive, the next process is numbered 1 as well. */
  lemma WrappedTwice(init: Proc, p: Proc)
    requires init != p
    ensures var info := map[init := Info(1, Alive, 0, 1, 1, true, 0)];
            PidsApart(info) && !PidsApart(info[p := Record(info, Number((U64 - 1 + 1) % U64), init)])
  {
    var info := map[init := Info(1, Alive, 0, 1, 1, true, 0)];
    assert info[init].pid == 1;
    CreateKeepsApart(info, 0, p, init);
  }

  lemma SeatTabled(table: seq<Ref>, slots: map<Proc, nat>, slot: nat, p: Proc)
    requires Tabled(table, slots) && p !in slots && slot < |table| && table[slot] == NULL
    ensures Tabled(table[slot := p], slots[p := slot])
  {
  }

  lemma AlignedDrop(slots: map<Proc, nat>, info: map<Proc, Info>, par: map<Proc, Ref>, c: Proc)
    requires Aligned(slots, info, par)
    ensures Aligned(slots - {c}, info - {c}, par - {c})
  {
  }

  lemma AlignedPar(slots: map<Proc, nat>, info: map<Proc, Info>, par: map<Proc, Ref>, par': map<Proc, Ref>)
    requires Aligned(slots, info, par) && par.Keys == par'.Keys
    ensures Aligned(slots, info, par')
  {
  }

  lemma ChildlessRooted(l: Links, kids: Lists, anc: map<Proc, set<Proc>>, c: Proc)
    requires Linked(l, kids, NULL) && Rooted(l.par, anc) && c in kids && kids[c] == []
    ensures Rooted(Dropped(l, c).par, anc - {c})
  {
    forall q | q in l.par ensures l.par[q] != c { assert q !in kids[c]; }
    DropRooted(l.par, anc, c);
  }

  /** Taking c with all below it to the top. */
  lemma LooseRooted(par: map<Proc, Ref>, anc: map<Proc, set<Proc>>, c: Proc)
    requires Rooted(par, anc) && c in par
    ensures c in anc && Rooted(par[c := NULL], Rebased(anc, {c}, anc[c], {}))
  {
    MoveRooted(par, anc, {c}, anc[c], NULL, par[c := NULL]);
  }

  /** Exactly one process is gone, from the records and from its parent's list. */
  ghost predicate Removed(info: map<Proc, Info>, kids: Lists, parent: Ref, child: Proc, info': map<Proc, Info>,
                          kids': Lists)
  {
    && child in info && info' == info - {child}
    && (if parent == NULL then kids' == kids - {child}
        else parent in kids && kids' == kids[parent := Without(kids[parent], child)] - {child})
  }

  lemma RowAt(l: Links, p: Proc, row: seq<Proc>, i: nat)
    requires Row(l, p, row) && i < |row|
    ensures row[i] in l.next && l.next[row[i]] == Head(row[i + 1..])
  {
    RowTail(l, p, row, i);
    assert row[i..][1..] == row[i + 1..];
  }

  lemma OnRow(l: Links, kids: Lists, parent: Proc, child: Proc)
    requires Linked(l, kids, NULL) && parent in kids && child in kids
    ensures child in l.par && (child in kids[parent] <==> l.par[child] == parent)
    ensures parent in l.first && l.first[parent] == Head(kids[parent]) && Row(l, parent, kids[parent])
  {
    hide Row;
    assert Row(l, parent, kids[parent]);
    if child in kids[parent] { InRow(l, parent, kids[parent], child); }
  }

  lemma NotOwnParent(par: map<Proc, Ref>, anc: map<Proc, set<Proc>>, c: Proc)
    requires Rooted(par, anc) && c in par
    ensures par[c] != c
  {
  }

  lemma ParentLive(l: Links, kids: Lists, c: Proc)
    requires Linked(l, kids, NULL) && c in l.par && l.par[c] != NULL
    ensures l.par[c] in kids
  {
  }

  lemma {:induction false} ChainKept(par: map<Proc, Ref>, anc: map<Proc, set<Proc>>, c: Proc, to: Ref,
                                     after: map<Proc, set<Proc>>, y: Proc)
    requires Rooted(par, anc) && c in par && y in par && c in anc[y]
    requires Rooted(par[c := to], after)
    ensures c in after[y]
    decreases anc[y]
  {
    var up := par[y];
    if up != c {
      assert up in anc[y] && up !in anc[up];
      ChainKept(par, anc, c, to, after, up);
    }
  }

  /** Moving a subtree below a process leaves a forest exactly when that process is outside the subtree. */
  lemma MoveRootedIff(par: map<Proc, Ref>, anc: map<Proc, set<Proc>>, c: Proc, to: Proc)
    requires Rooted(par, anc) && c in par && to in par
    ensures Acyclic(par[c := to]) <==> c != to && c !in anc[to]
  {
    var par' := par[c := to];
    assert par'[c] == to;
    if c != to && c !in anc[to] {
      MoveRooted(par, anc, {c}, anc[c], to, par');
    } else if Acyclic(par') {
      var after :| Rooted(par', after);
      if c != to { ChainKept(par, anc, c, to, after, to); }
      assert false;
    }
  }

  lemma UnderRooted(par: map<Proc, Ref>, anc: map<Proc, set<Proc>>, c: Proc, to: Proc)
    requires Rooted(par, anc) && c in par && to in par && par[c] == NULL && c != to && c !in anc[to]
    ensures c in anc && to in anc && Rooted(par[c := to], Rebased(anc, {c}, {}, Lineage(anc, to)))
  {
    MoveRooted(par, anc, {c}, {}, to, par[c := to]);
  }

  /** Creating a process and discarding it again changes nothing. */
  lemma DiscardUndoesCreate(info: map<Proc, Info>, kids: Lists, p: Proc, parent: Ref, record: Info,
                            info': map<Proc, Info>, kids': Lists)
    requires p !in info && p !in kids && (parent != NULL ==> parent in kids)
    requires Removed(info[p := record], BornLists(kids, p, parent), parent, p, info', kids')
    ensures info' == info && kids' == kids
  {
    if parent != NULL {
      assert BornLists(kids, p, parent)[parent] == [p] + kids[parent];
      assert Without([p] + kids[parent], p) == kids[parent];
    }
  }

  lemma RemoveKeepsPids(info: map<Proc, Info>, child: Proc, nextPid: nat)
    requires PidsOk(info, nextPid)
    ensures PidsOk(info - {child}, nextPid)
  {
  }

  lemma RecordPids(info: map<Proc, Info>, p: Proc, record: Info, nextPid: nat)
    requires p in info && record.pid == info[p].pid
    ensures PidsOk(info, nextPid) ==> PidsOk(info[p := record], nextPid)
  {
  }

  lemma ToldPids(info: map<Proc, Info>, row: seq<Proc>, number: int, nextPid: nat)
    ensures PidsOk(info, nextPid) ==> PidsOk(Told(info, row, number), nextPid)
  {
    assert Told(info, row, number).Keys == info.Keys;
    assert forall q :: q in info ==> Told(info, row, number)[q].pid == info[q].pid;
  }

  lemma ParPushed(l: Links, parent: Proc, child: Proc)
    requires parent in l.first
    ensures Pushed(l, parent, child).par == l.par[child := parent]
  {
  }

  /** The child lists after child moved from its old parent, if any, to the front of another's list. */
  ghost function Adopted(kids: Lists, home: Ref, parent: Proc, child: Proc): Lists
    requires parent in kids
  {
    var left := if home != NULL && home in kids then kids[home := Without(kids[home], child)] else kids;
    if home == parent then kids else left[parent := [child] + left[parent]]
  }

  /** Who has which parent once i children have moved. */
  ghost predicate MovedPar(par: map<Proc, Ref>, row: seq<Proc>, to: Ref, par': map<Proc, Ref>)
  {
    par'.Keys == par.Keys && forall q :: q in par ==> par'[q] == if q in row then to else par[q]
  }

  /** One step of a move: the head of p's list goes to the front of the other list, or becomes parentless. */
  function MoveOne(l: Links, c: Proc, to: Ref): Links
    requires to != NULL ==> to in l.first
  {
    if to == NULL then Loosened(l, c) else Pushed(l, to, c)
  }

  lemma PushLoosened(l: Links, c: Proc, to: Proc)
    requires to in l.first
    ensures Pushed(Loosened(l, c), to, c) == Pushed(l, to, c)
  {
  }

  /** The lists after that step. */
  ghost function HeadMoved(kids: Lists, p: Proc, to: Ref): Lists
    requires p in kids && kids[p] != [] && (to != NULL ==> to in kids)
  {
    var left := kids[p := kids[p][1..]];
    if to == NULL then left else left[to := [kids[p][0]] + kids[to]]
  }

  lemma MoveOneLinked(l: Links, kids: Lists, p: Proc, to: Ref)
    requires p in kids && kids[p] != [] && to != p && (to != NULL ==> to in kids) && Linked(l, kids, p)
    ensures to != NULL ==> to in l.first
    ensures kids[p][0] in l.next && l.next[kids[p][0]] == Head(kids[p][1..])
    ensures Linked(MoveOne(l, kids[p][0], to), HeadMoved(kids, p, to), p)
  {
    hide Linked;
    KidsKeys(l, kids, p);
    HeadOff(l, kids, p);
    var c := kids[p][0];
    if to != NULL {
      KidsKeys(Loosened(l, c), kids[p := kids[p][1..]], p);
      PushLinked(Loosened(l, c), kids[p := kids[p][1..]], p, to, c);
      PushLoosened(l, c, to);
    }
  }

  lemma MovedListsStep(kids: Lists, p: Proc, to: Ref, i: nat)
    requires p in kids && i < |kids[p]| && to != p && (to != NULL ==> to in kids)
    ensures var now := MovedLists(kids, p, to, i);
      && p in now && now[p] == kids[p][i..] && (to != NULL ==> to in now)
      && MovedLists(kids, p, to, i + 1) ==
         if to == NULL then now[p := now[p][1..]] else now[p := now[p][1..]][to := [kids[p][i]] + now[to]]
  {
    var now, row := MovedLists(kids, p, to, i), kids[p];
    assert row[i..][1..] == row[i + 1..];
    ReversedStep(row, i);
    if to != NULL {
      assert Reversed(row[..i + 1]) + kids[to] == [row[i]] + (Reversed(row[..i]) + kids[to]);
    }
  }

  lemma MovedParKeys(par: map<Proc, Ref>, row: seq<Proc>, to: Ref, par': map<Proc, Ref>)
    requires MovedPar(par, row, to, par')
    ensures par'.Keys == par.Keys
  {
  }

  lemma MovedParStep(par: map<Proc, Ref>, row: seq<Proc>, i: nat, to: Ref, now: map<Proc, Ref>)
    requires i < |row| && row[i] in par && MovedPar(par, row[..i], to, now)
    ensures MovedPar(par, row[..i + 1], to, now[row[i] := to])
  {
    assert row[..i + 1] == row[..i] + [row[i]];
  }

  lemma ToldStep(info: map<Proc, Info>, row: seq<Proc>, i: nat, number: int, now: map<Proc, Info>)
    requires i < |row| && row[i] in info && row[i] !in row[..i] && now == Told(info, row[..i], number)
    ensures Told(info, row[..i + 1], number)
      == if now[row[i]].leader then now[row[i] := now[row[i]].(ppid := number)] else now
  {
    assert row[..i + 1] == row[..i] + [row[i]];
  }

  lemma MoveOnePar(l: Links, c: Proc, to: Ref)
    requires to != NULL ==> to in l.first
    ensures MoveOne(l, c, to).par == l.par[c := to]
  {
  }

  lemma {:induction false} RowDistinct(l: Links, p: Proc, row: seq<Proc>, i: nat)
    requires Row(l, p, row) && i < |row|
    ensures row[i] !in row[..i]
  {
    if i > 0 {
      RowDistinct(l, p, row[1..], i - 1);
      assert row[1..][i - 1] == row[i] && row[..i] == [row[0]] + row[1..][..i - 1];
    }
  }

  /** All children of p leave for a process outside everything below p, or for the top. */
  lemma AllRooted(l: Links, kids: Lists, anc: map<Proc, set<Proc>>, p: Proc, to: Ref, par': map<Proc, Ref>)
    returns (after: map<Proc, set<Proc>>)
    requires Linked(l, kids, NULL) && Rooted(l.par, anc) && p in kids && p in anc
    requires to != NULL ==> to in l.par && to != p && p !in anc[to]
    requires MovedPar(l.par, kids[p], to, par')
    ensures Rooted(par', after)
  {
    hide Heads, Listed, Ended;
    var tops := set c | c in kids[p];
    assert Row(l, p, kids[p]);
    forall c | c in tops ensures c in l.par && anc[c] == Lineage(anc, p) { InRow(l, p, kids[p], c); }
    hide Rows, Row;
    if to != NULL && Beneath(anc, tops, to) {
      var c :| c in tops && (c == to || c in anc[to]);
      if c != to { AncestorsNest(l.par, anc, c, to); }
      assert false;
    }
    MoveRooted(l.par, anc, tops, Lineage(anc, p), to, par');
    after := Rebased(anc, tops, Lineage(anc, p), Lineage(anc, to));
  }

  /** The parent number the leader threads of moved children are told. */
  function HeirNumber(info: map<Proc, Info>, to: Ref): int
    requires to != NULL ==> to in info
  {
    if to == NULL then 1 else ToInt(info[to].pid)
  }

  /** The state after i children of p have moved, l0, kids0 and info0 being the one before. */
  ghost predicate Moving(l0: Links, kids0: Lists, info0: map<Proc, Info>, p: Proc, to: Ref, i: nat,
                         l: Links, kids: Lists, info: map<Proc, Info>)
  {
    && p in kids0 && i <= |kids0[p]| && p != to && (to != NULL ==> to in kids0 && to in info0)
    && Row(l0, p, kids0[p]) && (forall c :: c in kids0[p] ==> c in info0 && c in l0.par)
    && Linked(l, kids, p) && kids == MovedLists(kids0, p, to, i)
    && MovedPar(l0.par, kids0[p][..i], to, l.par)
    && info == Told(info0, kids0[p][..i], HeirNumber(info0, to))
  }

  lemma MovingStarts(l: Links, kids: Lists, slots: map<Proc, nat>, info: map<Proc, Info>, p: Proc, to: Ref)
    requires Aligned(slots, info, l.par) && Linked(l, kids, NULL) && p in kids && p != to && (to != NULL ==> to in info)
    ensures p in l.first && l.first[p] == Head(kids[p])
    ensures Moving(l, kids, info, p, to, 0, l.(first := l.first[p := NULL]), kids, info)
  {
    hide Row, Listed, Ended, MovedLists, MovedPar, Told, HeirNumber;
    OpenLinked(l, kids, p);
    KidsKeys(l, kids, NULL);
    assert Row(l, p, kids[p]);
    forall c | c in kids[p] ensures c in info && c in l.par { InRow(l, p, kids[p], c); }
    assert kids[p][..0] == [];
    assert p in l.first && l.first[p] == Head(kids[p]);
    hide Rows, Heads, Linked;
    MovedNone(kids, l.par, info, p, to);
  }

  lemma MovedNone(kids: Lists, par: map<Proc, Ref>, info: map<Proc, Info>, p: Proc, to: Ref)
    requires p in kids && p != to && (to != NULL ==> to in kids && to in info)
    ensures MovedLists(kids, p, to, 0) == kids && MovedPar(par, [], to, par)
    ensures Told(info, [], HeirNumber(info, to)) == info
  {
    assert kids[p][0..] == kids[p] && kids[p][..0] == [];
    assert to != NULL ==> [] + kids[to] == kids[to];
  }

  function TellOne(info: map<Proc, Info>, c: Proc, number: int): map<Proc, Info>
    requires c in info
  {
    if info[c].leader then info[c := info[c].(ppid := number)] else info
  }

  lemma MovingStep(l0: Links, kids0: Lists, info0: map<Proc, Info>, p: Proc, to: Ref, i: nat,
                   l: Links, kids: Lists, info: map<Proc, Info>)
    requires Moving(l0, kids0, info0, p, to, i, l, kids, info) && i < |kids0[p]|
    ensures to != NULL ==> to in l.first
    ensures var c := kids0[p][i];
      && c in l.next && l.next[c] == Head(kids0[p][i + 1..]) && c in info
      && Moving(l0, kids0, info0, p, to, i + 1, MoveOne(l, c, to), MovedLists(kids0, p, to, i + 1),
                TellOne(info, c, HeirNumber(info0, to)))
  {
    hide Linked, MovedLists, MovedPar, Row, MoveOne;
    var row := kids0[p];
    MovedListsStep(kids0, p, to, i);
    MoveOneLinked(l, kids, p, to);
    MoveOnePar(l, row[i], to);
    MovedParStep(l0.par, row, i, to, l.par);
    RowDistinct(l0, p, row, i);
    ToldStep(info0, row, i, HeirNumber(info0, to), info);
    assert row[i..][1..] == row[i + 1..];
  }

  lemma Finish(l0: Links, kids0: Lists, slots: map<Proc, nat>, info0: map<Proc, Info>, anc: map<Proc, set<Proc>>,
               p: Proc, to: Ref, l: Links, kids: Lists, info: map<Proc, Info>) returns (after: map<Proc, set<Proc>>)
    requires p in kids0 && Moving(l0, kids0, info0, p, to, |kids0[p]|, l, kids, info)
    requires Aligned(slots, info0, l0.par) && Linked(l0, kids0, NULL) && Rooted(l0.par, anc)
    requires to != NULL ==> to in anc && p !in anc[to]
    ensures Linked(l, kids, NULL) && Rooted(l.par, after) && Aligned(slots, info, l.par)
  {
    hide Rows, Heads, Listed, Ended, Row, Rebased, MovedPar;
    assert kids0[p][..|kids0[p]|] == kids0[p];
    after := AllRooted(l0, kids0, anc, p, to, l.par);
    hide Rooted;
    assert kids[p] == [];
    CloseLinked(l, kids, p);
    hide Linked;
    MovedParKeys(l0.par, kids0[p], to, l.par);
    assert info.Keys == info0.Keys;
  }

  lemma {:induction false} RowOnce(l: Links, p: Proc, row: seq<Proc>, q: Proc)
    requires Row(l, p, row)
    ensures multiset(row)[q] == if q in row then 1 else 0
  {
    if row != [] {
      RowOnce(l, p, row[1..], q);
      assert row == [row[0]] + row[1..];
    }
  }

  /** A process is on the list of its parent exactly once, and on no other list. */
  lemma OnceOnOwnList(l: Links, kids: Lists, p: Proc, q: Proc)
    requires Linked(l, kids, NULL) && p in kids && q in kids
    ensures q in l.par && multiset(kids[p])[q] == if l.par[q] == p then 1 else 0
  {
    hide Row;
    assert Row(l, p, kids[p]);
    RowOnce(l, p, kids[p], q);
    if q in kids[p] { InRow(l, p, kids[p], q); }
  }

  function WithPid(info: map<Proc, Info>, p: Proc, number: nat): map<Proc, Info>
    requires p in info
  {
    info[p := info[p].(pid := number)]
  }

  /** Process p becomes number one, leading its own group and session. */
  function FirstProc(info: map<Proc, Info>, p: Proc): map<Proc, Info>
    requires p in info
  {
    info[p := info[p].(pid := 1, pgid := 1, sid := 1)]
  }

  /** Another process that holds number one. */
  ghost predicate Holds(info: map<Proc, Info>, p: Proc, o: Ref)
  {
    o != NULL && o in info && o != p && info[o].pid == 1
  }

  /** With distinct numbers there is one holder at most. */
  lemma OneHolder(info: map<Proc, Info>, nextPid: nat, p: Proc, o: Proc, q: Ref)
    requires PidsOk(info, nextPid) && Holds(info, p, o)
    ensures !Holds(WithPid(info, o, nextPid), p, q)
  {
  }

  lemma InTable(table: seq<Ref>, slots: map<Proc, nat>, info: map<Proc, Info>, par: map<Proc, Ref>)
    requires Tabled(table, slots) && Aligned(slots, info, par)
    ensures forall i :: 0 <= i < |table| && table[i] != NULL ==> table[i] in info
    ensures forall q :: q in info ==> q in table
  {
    forall q | q in info ensures q in table { assert table[slots[q]] == q; }
  }

  lemma AlignedSame(slots: map<Proc, nat>, info: map<Proc, Info>, par: map<Proc, Ref>, p: Proc, record: Info)
    requires Aligned(slots, info, par) && p in info
    ensures Aligned(slots, info[p := record], par)
  {
    assert info[p := record].Keys == info.Keys;
  }

  lemma AtLeastTwo(info: map<Proc, Info>, nextPid: nat, p: Proc)
    requires PidsOk(info, nextPid) && p in info
    ensures nextPid >= 2
  {
  }

  lemma ClaimedPids(info: map<Proc, Info>, nextPid: nat, p: Proc, o: Ref)
    requires PidsOk(info, nextPid) && p in info
    requires o == NULL ==> forall q :: q in info ==> !Holds(info, p, q)
    requires o != NULL ==> Holds(info, p, o)
    ensures o == NULL ==> PidsOk(FirstProc(info, p), nextPid)
    ensures o != NULL ==> PidsOk(FirstProc(WithPid(info, o, nextPid), p), nextPid + 1)
  {
  }

  class ProcTable {
    const table: array<Ref>
    var nextPid: nat
    var links: Links
    var info: map<Proc, Info>
    ghost var slots: map<Proc, nat>
    ghost var kids: Lists
    ghost var anc: map<Proc, set<Proc>>

    ghost predicate Valid()
      reads this, table
    {
      && nextPid < U64 && Tabled(table[..], slots)
      && Aligned(slots, info, links.par)
      && Linked(links, kids, NULL) && Rooted(links.par, anc)
    }

    ghost function ParentOf(p: Ref): Ref
      reads this
    {
      if p != NULL && p in links.par then links.par[p] else NULL
    }

    ghost predicate Childless(p: Ref)
      reads this
    {
      p != NULL && p in kids && kids[p] == []
    }

    constructor ()
      ensures Valid() && info == map[] && PidsOk(info, nextPid) && fresh(table)
    {
      table := new Ref[TABLE_MAX](_ => NULL);
      nextPid := 1;
      links, info := Links(map[], map[], map[]), map[];
      slots, kids, anc := map[], map[], map[];
    }

    method DrawPid() returns (pid: nat)
      requires nextPid < U64
      modifies `nextPid
      ensures 0 < pid < U64 && nextPid < U64
      ensures pid == if old(nextPid) == 0 then 1 else old(nextPid)
      ensures nextPid == (pid + 1) % U64
    {
      pid, nextPid := nextPid, (nextPid + 1) % U64;
      if pid == 0 { pid, nextPid := nextPid, (nextPid + 1) % U64; }
    }

    /** A number for a process that must give up number one. */
    method DrawStale() returns (pid: nat)
      requires nextPid < U64
      modifies `nextPid
      ensures nextPid < U64
      ensures 2 <= old(nextPid) < U64 - 1 ==> pid == old(nextPid) && nextPid == pid + 1
    {
      pid, nextPid := nextPid, (nextPid + 1) % U64;
      if pid == 0 || pid == 1 { pid, nextPid := nextPid, (nextPid + 1) % U64; }
    }

    method RaiseCounter()
      modifies `nextPid
      ensures nextPid == if old(nextPid) <= 1 then 2 else old(nextPid)
    {
      if nextPid <= 1 { nextPid := 2; }
    }

    /** The first empty slot, or none. */
    method FreeSlot() returns (slot: int)
      ensures slot == -1 || (0 <= slot < table.Length && table[slot] == NULL)
      ensures slot == -1 ==> forall i :: 0 <= i < table.Length ==> table[i] != NULL
    {
      slot := 0;
      while slot < table.Length
        invariant 0 <= slot <= table.Length
        invariant forall i :: 0 <= i < slot ==> table[i] != NULL
      {
        if table[slot] == NULL { return; }
        slot := slot + 1;
      }
      slot := -1;
    }

    method Vacate(p: Proc)
      requires Tabled(table[..], slots) && p in slots
      modifies `slots, table
      ensures Tabled(table[..], slots) && slots == old(slots) - {p}
    {
      var i := 0;
      while i < table.Length
        invariant 0 <= i <= slots[p]
        invariant Tabled(table[..], slots) && slots == old(slots)
      {
        if table[i] == p {
          table[i] := NULL;
          slots := slots - {p};
          return;
        }
        i := i + 1;
      }
      assert false;
    }

    /** Find a child on a list, and the process before it. */
    method Locate(parent: Proc, child: Proc) returns (found: bool, prev: Ref)
      requires Linked(links, kids, NULL) && parent in kids && child in kids
      ensures found <==> child in kids[parent]
      ensures child in links.par && (found <==> links.par[child] == parent)
      ensures found ==> prev == Before(kids[parent], child)
    {
      hide Linked, Before, Row;
      OnRow(links, kids, parent, child);
      prev := NULL;
      var cur := links.first[parent];
      ghost var row, i := kids[parent], 0;
      assert row[0..] == row;
      while cur != NULL && cur != child
        invariant 0 <= i <= |row|
        invariant cur == Head(row[i..])
        invariant prev == if i == 0 then NULL else row[i - 1]
        invariant child !in row[..i]
        decreases |row| - i
      {
        RowAt(links, parent, row, i);
        prev, cur := cur, links.next[cur];
        i := i + 1;
      }
      found := cur == child;
      if found {
        BeforeAt(links, parent, row, i);
      } else {
        assert row[..i] == row;
      }
    }

    /** Create a process under a parent, or at the top. `addr` is what the allocator returns. */
    method Create(parent: Ref, addr: Ref) returns (p: Ref)
      requires Valid() && (parent != NULL ==> parent in info) && (addr != NULL ==> addr !in info)
      modifies this, table
      ensures Valid()
      ensures p == if old(forall i :: 0 <= i < table.Length ==> table[i] != NULL) then NULL else addr
      ensures p == NULL ==> info == old(info) && kids == old(kids) && nextPid == old(nextPid) && slots == old(slots)
      ensures p != NULL ==> (parent != NULL ==> parent in old(kids)) && kids == BornLists(old(kids), p, parent)
      ensures p != NULL ==> info == old(info)[p := Record(old(info), Number(old(nextPid)), parent)]
      ensures p != NULL ==> nextPid == (Number(old(nextPid)) + 1) % U64
      ensures p != NULL ==> info[p].pid == (if old(nextPid) == 0 then 1 else old(nextPid)) && info[p].phase == Alive
      ensures p != NULL && parent != NULL ==>
                info[p].pgid == old(info)[parent].pgid && info[p].sid == old(info)[parent].sid
      ensures p != NULL && parent == NULL ==> info[p].pgid == info[p].sid == ToInt(info[p].pid)
      ensures p != NULL && old(PidsOk(info, nextPid)) ==> (PidsOk(info, nextPid) <==> old(nextPid) + 1 < U64)
      ensures p != NULL && old(PidsApart(info)) ==> (PidsApart(info) <==> !old(Carried(info, Number(nextPid))))
    {
      hide Linked, Rooted, Tabled, Born, BornLists, Record, Aligned, PidsOk, PidsApart, Carried, ToInt;
      var slot := FreeSlot();
      if slot < 0 || addr == NULL { return NULL; }
      p := addr;
      var number := DrawPid();
      RecordIs(info, number, parent);
      OnRecord(slots, info, links, kids, p);
      if parent != NULL { OnRecord(slots, info, links, kids, parent); }
      BornLinked(links, kids, p, parent);
      AddRooted(links.par, anc, p, parent);
      SeatTabled(table[..], slots, slot, p);
      AlignedAdd(slots, info, links.par, p, slot, Record(info, number, parent), parent);
      links, kids, anc := Born(links, p, parent), BornLists(kids, p, parent), anc[p := Lineage(anc, parent)];
      info := info[p := Record(info, number, parent)];
      slots := slots[p := slot];
      table[slot] := p;
      if old(PidsOk(info, nextPid)) { CreateKeepsPids(old(info), old(nextPid), p, parent); }
      if old(PidsApart(info)) { CreateKeepsApart(old(info), old(nextPid), p, parent); }
    }

    /** Unlink a child from a list, if it is on it. */
    method Unlink(parent: Proc, child: Proc) returns (found: bool)
      requires Valid() && parent in info && child in info
      modifies `links, `kids, `anc
      ensures Valid() && child in old(links).par && parent in old(kids)
      ensures found <==> old(links).par[child] == parent
      ensures found ==> child != parent
      ensures found ==> kids == old(kids)[parent := Without(old(kids)[parent], child)]
      ensures found ==> links.par == old(links).par[child := NULL]
      ensures child in old(anc) && (found ==> anc == Rebased(old(anc), {child}, old(anc)[child], {}))
      ensures !found ==> anc == old(anc) && kids == old(kids) && links == old(links)
    {
      hide Linked, Rooted, Tabled, Aligned, Before, Without, Cut;
      OnRecord(slots, info, links, kids, parent);
      OnRecord(slots, info, links, kids, child);
      LooseRooted(links.par, anc, child);
      var prev: Ref;
      found, prev := Locate(parent, child);
      if found {
        CutLinked(links, kids, parent, child, prev);
        CutParent(links, parent, child, prev);
        NotOwnParent(links.par, anc, child);
        AlignedPar(slots, info, links.par, links.par[child := NULL]);
        anc := Rebased(anc, {child}, anc[child], {});
        kids := kids[parent := Without(kids[parent], child)];
        links := Cut(links, parent, child, prev);
      }
    }

    /** Take a parentless process off the table and out of memory. */
    method Forget(child: Proc)
      requires Valid() && child in info && child in links.par && links.par[child] == NULL
      modifies this, table
      ensures info == old(info) - {child} && kids == old(kids) - {child} && nextPid == old(nextPid)
      ensures old(PidsOk(info, nextPid)) ==> PidsOk(info, nextPid)
      ensures child in old(kids) && (Valid() <==> old(kids)[child] == [])
    {
      hide Linked, Rooted, Tabled, Aligned, Dropped, PidsOk;
      OnRecord(slots, info, links, kids, child);
      DropLinked(links, kids, child);
      if kids[child] == [] { ChildlessRooted(links, kids, anc, child); }
      AlignedDrop(slots, info, links.par, child);
      DropParent(links, child);
      if PidsOk(info, nextPid) { RemoveKeepsPids(info, child, nextPid); }
      Vacate(child);
      links, info, kids, anc := Dropped(links, child), info - {child}, kids - {child}, anc - {child};
    }

    /** Wait on a zombie child: it must be on the parent's list. Only it disappears. */
    method Reap(parent: Ref, child: Ref) returns (r: int)
      requires Valid() && (parent != NULL ==> parent in info) && (child != NULL ==> child in info)
      modifies this, table
      ensures r == 0 || r == -1
      ensures r == 0 <==> old(parent != NULL && child != NULL && info[child].phase == Zombie &&
                              ParentOf(child) == parent)
      ensures r == -1 ==> Valid() && info == old(info) && kids == old(kids) && nextPid == old(nextPid)
      ensures r == 0 ==> Removed(old(info), old(kids), parent, child, info, kids) && nextPid == old(nextPid)
      ensures r == 0 ==> (Valid() <==> old(Childless(child)))
      ensures old(PidsOk(info, nextPid)) ==> PidsOk(info, nextPid)
    {
      hide Linked, Rooted, Tabled, Aligned, Without, PidsOk;
      if parent == NULL || child == NULL || info[child].phase != Zombie { return -1; }
      var found := Unlink(parent, child);
      if !found { return -1; }
      Forget(child);
      r := 0;
    }

    /** The same from the child's side: the parent is whichever the zombie has, if any. */
    method ReapZombie(child: Ref) returns (r: int)
      requires Valid() && (child != NULL ==> child in info)
      modifies this, table
      ensures r == 0 || r == -1
      ensures r == 0 <==> old(child != NULL && info[child].phase == Zombie)
      ensures r == -1 ==> Valid() && info == old(info) && kids == old(kids) && nextPid == old(nextPid)
      ensures r == 0 ==>
                Removed(old(info), old(kids), old(ParentOf(child)), child, info, kids) && nextPid == old(nextPid)
      ensures r == 0 ==> (Valid() <==> old(Childless(child)))
      ensures old(PidsOk(info, nextPid)) ==> PidsOk(info, nextPid)
    {
      hide Linked, Rooted, Tabled, Aligned, Without, PidsOk;
      if child == NULL || info[child].phase != Zombie { return -1; }
      OnRecord(slots, info, links, kids, child);
      var parent := links.par[child];
      if parent != NULL {
        ParentLive(links, kids, child);
        OnRecord(slots, info, links, kids, parent);
        var _ := Unlink(parent, child);
      }
      Forget(child);
      r := 0;
    }

    /** Undo a creation: the child may be in any state, but must be on the parent's list. */
    method Discard(parent: Ref, child: Ref) returns (r: int)
      requires Valid() && (parent != NULL ==> parent in info) && (child != NULL ==> child in info)
      modifies this, table
      ensures r == 0 || r == -1
      ensures r == 0 <==> old(parent != NULL && child != NULL && ParentOf(child) == parent)
      ensures r == -1 ==> Valid() && info == old(info) && kids == old(kids) && nextPid == old(nextPid)
      ensures r == 0 ==> Removed(old(info), old(kids), parent, child, info, kids) && nextPid == old(nextPid)
      ensures r == 0 ==> (Valid() <==> old(Childless(child)))
      ensures old(PidsOk(info, nextPid)) ==> PidsOk(info, nextPid)
    {
      hide Linked, Rooted, Tabled, Aligned, Without, PidsOk;
      if parent == NULL || child == NULL { return -1; }
      var found := Unlink(parent, child);
      if !found { return -1; }
      Forget(child);
      r := 0;
    }

    /** Put a parentless process, with all below it, first among the children of one that is not below it. */
    method PushUnder(parent: Proc, child: Proc)
      requires Valid() && parent in info && child in info && ParentOf(child) == NULL && parent != child
      requires parent in anc && child !in anc[parent]
      modifies `links, `kids, `anc
      ensures Valid() && parent in old(kids)
      ensures kids == old(kids)[parent := [child] + old(kids)[parent]]
    {
      hide Linked, Rooted, Tabled, Aligned, Pushed, Rebased;
      OnRecord(slots, info, links, kids, parent);
      OnRecord(slots, info, links, kids, child);
      KidsKeys(links, kids, NULL);
      UnderRooted(links.par, anc, child, parent);
      PushLinked(links, kids, NULL, parent, child);
      ParPushed(links, parent, child);
      AlignedPar(slots, info, links.par, links.par[child := parent]);
      anc := Rebased(anc, {child}, {}, Lineage(anc, parent));
      links, kids := Pushed(links, parent, child), kids[parent := [child] + kids[parent]];
    }

    /** Make a process a child of another, moving it there with all below it. */
    method Adopt(parent: Ref, child: Ref) returns (r: int)
      requires Valid() && (parent != NULL ==> parent in info) && (child != NULL ==> child in info)
      requires parent != NULL && child != NULL ==> parent in anc && child !in anc[parent]
      modifies `links, `kids, `anc
      ensures Valid()
      ensures r == if parent == NULL || child == NULL || child == parent then -1 else 0
      ensures r == -1 ==> kids == old(kids)
      ensures r == 0 ==> parent in old(kids) && kids == Adopted(old(kids), old(ParentOf(child)), parent, child)
    {
      hide Linked, Rooted, Tabled, Aligned, Without;
      if parent == NULL || child == NULL || child == parent { return -1; }
      OnRecord(slots, info, links, kids, parent);
      OnRecord(slots, info, links, kids, child);
      var home := links.par[child];
      if home != NULL && home != parent {
        ParentLive(links, kids, child);
        OnRecord(slots, info, links, kids, home);
        var _ := Unlink(home, child);
      }
      var linked, _ := Locate(parent, child);
      if !linked { PushUnder(parent, child); }
      r := 0;
    }

    /** Hand all children of a process to another, or to none: the exit path. */
    method Reparent(process: Ref, to: Ref)
      requires Valid() && (process != NULL ==> process in info) && (to != NULL ==> to in info)
      requires process != NULL && to != NULL ==> to in anc && process !in anc[to]
      modifies `links, `info, `kids, `anc
      ensures Valid()
      ensures process == NULL || process == to ==> info == old(info) && kids == old(kids)
      ensures process != NULL && process != to ==> process in old(kids) && (to != NULL ==> to in old(kids))
      ensures process != NULL && process != to ==> kids == MovedLists(old(kids), process, to, |old(kids)[process]|)
      ensures process != NULL && process != to ==>
                info == Told(old(info), old(kids)[process], HeirNumber(old(info), to))
      ensures process != NULL && process != to ==>
                forall c :: c in old(kids)[process] && c in info && info[c].leader ==>
                  info[c].ppid == if to == NULL then 1 else ToInt(info[to].pid)
      ensures old(PidsOk(info, nextPid)) ==> PidsOk(info, nextPid)
    {
      hide PidsOk, Linked, Rooted, Tabled, Aligned, MovedLists, MovedPar, Told, Row, Pushed, Loosened;
      if process == NULL || process == to { return; }
      OnRecord(slots, info, links, kids, process);
      if to != NULL { OnRecord(slots, info, links, kids, to); }
      MovingStarts(links, kids, slots, info, process, to);
      var number := HeirNumber(info, to);
      var child := links.first[process];
      links := links.(first := links.first[process := NULL]);
      ghost var l0, row, i := old(links), kids[process], 0;
      assert row[0..] == row;
      while child != NULL
        invariant 0 <= i <= |row| && child == Head(row[i..]) && anc == old(anc)
        invariant Moving(l0, old(kids), old(info), process, to, i, links, kids, info)
        decreases |row| - i
      {
        MovingStep(l0, old(kids), old(info), process, to, i, links, kids, info);
        var next := links.next[child];
        info := TellOne(info, child, number);
        links := if to != NULL then Pushed(links, to, child) else Loosened(links, child);
        kids := MovedLists(old(kids), process, to, i + 1);
        child, i := next, i + 1;
      }
      assert i == |row| && row[..i] == row;
      anc := Finish(l0, old(kids), slots, old(info), anc, process, to, links, kids, info);
      ToldPids(old(info), row, number, nextPid);
      ToldEach(old(info), row, number);
    }

    /** A process that has ended waits to be reaped with its status. */
    method MarkZombie(process: Ref, status: int)
      requires Valid() && (process != NULL ==> process in info)
      modifies `info
      ensures Valid()
      ensures process == NULL ==> info == old(info)
      ensures process != NULL ==> info == old(info)[process := old(info)[process].(status := status, phase := Zombie)]
      ensures old(PidsOk(info, nextPid)) ==> PidsOk(info, nextPid)
    {
      hide Linked, Rooted, Tabled, Aligned, PidsOk;
      if process == NULL { return; }
      AlignedSame(slots, info, links.par, process, info[process].(status := status, phase := Zombie));
      RecordPids(info, process, info[process].(status := status, phase := Zombie), nextPid);
      info := info[process := info[process].(status := status, phase := Zombie)];
    }

    /** Give a process number one; a stale holder of it gets a new number, returned as o. */
    method ClaimFirst(process: Ref) returns (ghost o: Ref)
      requires Valid() && (process != NULL ==> process in info)
      requires PidsOk(info, nextPid) && nextPid + 1 < U64
      modifies `info, `nextPid
      ensures Valid() && PidsOk(info, nextPid)
      ensures process == NULL ==> info == old(info) && nextPid == old(nextPid)
      ensures process != NULL && o == NULL ==>
        && (forall q :: q in old(info) ==> !Holds(old(info), process, q))
        && info == FirstProc(old(info), process) && nextPid == old(nextPid)
      ensures process != NULL && o != NULL ==>
        && Holds(old(info), process, o)
        && info == FirstProc(WithPid(old(info), o, old(nextPid)), process) && nextPid == old(nextPid) + 1
      ensures process != NULL ==> info[process].pid == info[process].pgid == info[process].sid == 1
      ensures process != NULL && o != NULL ==> o in info && info[o].pid == old(nextPid)
    {
      hide Linked, Rooted, Aligned, Tabled, PidsOk;
      o := NULL;
      if process == NULL { return; }
      InTable(table[..], slots, info, links.par);
      AtLeastTwo(info, nextPid, process);
      var i := 0;
      while i < table.Length
        invariant 0 <= i <= table.Length && 2 <= nextPid < U64
        invariant o == NULL ==> info == old(info) && nextPid == old(nextPid)
        invariant o == NULL ==> forall j :: 0 <= j < i ==> !Holds(info, process, table[..][j])
        invariant o != NULL ==> Holds(old(info), process, o)
        invariant o != NULL ==> info == WithPid(old(info), o, old(nextPid)) && nextPid == old(nextPid) + 1
      {
        var q := table[i];
        assert q == table[..][i];
        if o != NULL { OneHolder(old(info), old(nextPid), process, o, q); }
        if q != NULL && q != process && info[q].pid == 1 {
          o := q;
          var number := DrawStale();
          info := WithPid(info, q, number);
        }
        i := i + 1;
      }
      if o == NULL {
        forall q | q in info ensures !Holds(info, process, q) { assert q in table[..]; }
      }
      ClaimedPids(old(info), old(nextPid), process, o);
      if o != NULL { AlignedSame(slots, old(info), links.par, o, info[o]); }
      AlignedSame(slots, info, links.par, process, info[process].(pid := 1, pgid := 1, sid := 1));
      info := FirstProc(info, process);
      RaiseCounter();
    }
  }
}
