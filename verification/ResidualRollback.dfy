/**
  Taking a path back past the point where the residual degrees were last rebuilt:
  how far each entry then falls short, when all of them are right, and why a
  placement must underflow when one is not.
 */
module ResidualRollbacks {
  import opened Graphs
  import opened Feasibility
  import opened NodeStates
  import opened ThresholdSearch

  /** Every vertex of the path from depth r on had all its neighbours placed before it. */
  ghost predicate Unwindable(g: Graph, path: seq<Vertex>, r: nat) {
    forall i :: r <= i < |path| ==> Neighbours(g, path[i]) <= Elems(path[..i])
  }

  /** The unplaced neighbours that a vertex of the path had when it was placed, and that its entry misses. */
  ghost function Deficit(g: Graph, path: seq<Vertex>, j: nat): nat
    requires j < |path|
  {
    |Neighbours(g, path[j]) - Elems(path[..j])|
  }

  /** The entries of the unplaced vertices are their numbers of unplaced neighbours. */
  ghost predicate Right(g: Graph, S: set<Vertex>, table: seq<nat>) {
    |table| == Size(g) && forall v :: v in Vertices(g) - S ==> table[v] == |Neighbours(g, v) - S|
  }

  // ----- paths -----

  lemma ShorterIsPath(g: Graph, path: seq<Vertex>, r: nat)
    requires IsPath(g, path) && r <= |path|
    ensures IsPath(g, path[..r])
  {
    forall v | v in Elems(path[..r]) ensures v in Vertices(g) {
      assert v in Elems(path);
    }
  }

  lemma LaterIsOff(g: Graph, path: seq<Vertex>, r: nat, j: nat)
    requires IsPath(g, path) && r <= j < |path|
    ensures path[j] in Vertices(g) && path[j] !in path[..r]
  {
    assert path[j] in Elems(path);
    forall i | 0 <= i < r ensures path[..r][i] != path[j] {
      assert path[i] != path[j];
    }
  }

  /** A vertex of the path that is off the path cut at r was placed at depth r or later. */
  lemma OffThePath(path: seq<Vertex>, r: nat, v: Vertex)
    requires r <= |path| && v in path && v !in path[..r]
    ensures exists j :: r <= j < |path| && path[j] == v
  {
    assert path == path[..r] + path[r..];
    var j :| 0 <= j < |path[r..]| && path[r..][j] == v;
    assert path[r + j] == v;
  }

  lemma {:induction false} EarlierAt(g: Graph, path: seq<Vertex>, j: nat)
    requires IsPath(g, path) && j < |path|
    ensures Earlier(path, path[j]) == Elems(path[..j])
    decreases |path|
  {
    var init := path[..|path| - 1];
    if j < |path| - 1 {
      ShorterIsPath(g, path, |path| - 1);
      EarlierAt(g, init, j);
      assert init[j] == path[j] && init[..j] == path[..j];
    }
  }

  lemma EmptyDifference(A: set<Vertex>, B: set<Vertex>)
    ensures |A - B| == 0 <==> A <= B
  {
    if |A - B| == 0 {
      forall v | v in A ensures v in B {
        assert v !in A - B;
      }
    } else {
      var v :| v in A - B;
    }
  }

  // ----- what a rebuild misses -----

  lemma MissingAt(g: Graph, path: seq<Vertex>, j: nat)
    requires IsPath(g, path) && j < |path|
    ensures path[j] in Vertices(g) && Missing(g, path)[path[j]] == Deficit(g, path, j)
    ensures Deficit(g, path, j) == 0 <==> Neighbours(g, path[j]) <= Elems(path[..j])
  {
    hide Earlier, Elems, IsPath, Neighbours;
    LaterIsOff(g, path, j, j);
    EarlierAt(g, path, j);
    EmptyDifference(Neighbours(g, path[j]), Elems(path[..j]));
  }

  /** A rebuild misses nothing from depth r on exactly when the path can be unwound to r. */
  lemma NoneMissingIffUnwindable(g: Graph, path: seq<Vertex>, r: nat)
    requires IsPath(g, path) && r <= |path|
    ensures NoneMissing(g, path, r, Missing(g, path)) <==> Unwindable(g, path, r)
  {
    hide Deficit, Elems, IsPath, Neighbours;
    forall j | r <= j < |path|
      ensures path[j] < Size(g) && path[j] !in path[..r]
      ensures Missing(g, path)[path[j]] == 0 <==> Neighbours(g, path[j]) <= Elems(path[..j])
    {
      MissingAt(g, path, j);
      LaterIsOff(g, path, r, j);
    }
    if Unwindable(g, path, r) {
      forall v | 0 <= v < Size(g) && v !in path[..r] ensures Missing(g, path)[v] == 0 {
        if v in path {
          OffThePath(path, r, v);
        }
      }
    }
  }

  // ----- taking off -----

  /** The tables at each depth, from the rebuilt one at the full path back to depth r. */
  ghost predicate Rolled(g: Graph, path: seq<Vertex>, r: nat, tables: seq<seq<nat>>) {
    && r <= |path| && |tables| == |path| - r + 1
    && ResidualDegrees(g, path, Missing(g, path), tables[|path| - r])
    && forall d :: r <= d < |path| ==>
         CountsMoved(g, Elems(path[..d]) + {path[d]}, path[d], Size(g), tables[d - r + 1], tables[d - r])
  }

  /** What the entries miss stays what the rebuild missed. */
  lemma {:induction false} RolledKeeps(g: Graph, path: seq<Vertex>, r: nat, tables: seq<seq<nat>>, d: nat)
    requires IsPath(g, path) && Rolled(g, path, r, tables) && r <= d <= |path|
    ensures ResidualDegrees(g, path[..d], Missing(g, path), tables[d - r])
    decreases |path| - d
  {
    hide Elems, IsPath, Missing, ResidualDegrees, CountsMoved, Rolled;
    if d == |path| {
      assert path[..d] == path;
      TableCount(g, path, r, tables);
    } else {
      RolledKeeps(g, path, r, tables, d + 1);
      RolledStep(g, path, r, tables, d);
      LaterIsOff(g, path, d, d);
      assert path[..d + 1] == path[..d] + [path[d]];
      PlacementMovesResiduals(g, path[..d], Missing(g, path), path[d], tables[d + 1 - r], tables[d - r]);
    }
  }

  lemma RolledStep(g: Graph, path: seq<Vertex>, r: nat, tables: seq<seq<nat>>, d: nat)
    requires Rolled(g, path, r, tables) && r <= d < |path|
    ensures |tables| == |path| - r + 1
    ensures CountsMoved(g, Elems(path[..d]) + {path[d]}, path[d], Size(g), tables[d + 1 - r], tables[d - r])
  {
    hide CountsMoved, ResidualDegrees;
  }

  lemma UnplacedEntry(g: Graph, path: seq<Vertex>, deficit: seq<nat>, table: seq<nat>, v: Vertex)
    requires ResidualDegrees(g, path, deficit, table) && v < Size(g) && v !in path
    ensures |table| == |deficit| == Size(g) && table[v] + deficit[v] == |Neighbours(g, v) - Elems(path)|
  {
    EarlierUnplaced(path, v);
  }

  /** At every depth the entry of a vertex taken off is short by its deficit, no more and no less. */
  lemma ShortByDeficit(g: Graph, path: seq<Vertex>, r: nat, tables: seq<seq<nat>>, d: nat, j: nat)
    requires IsPath(g, path) && Rolled(g, path, r, tables) && r <= d <= j < |path|
    ensures path[j] < Size(g) == |tables[d - r]|
    ensures tables[d - r][path[j]] + Deficit(g, path, j) == |Neighbours(g, path[j]) - Elems(path[..d])|
  {
    hide Deficit, Elems, IsPath, Missing, Neighbours, ResidualDegrees, Rolled;
    assert d - r < |tables| by {
      TableCount(g, path, r, tables);
    }
    RolledKeeps(g, path, r, tables, d);
    MissingAt(g, path, j);
    LaterIsOff(g, path, d, j);
    UnplacedEntry(g, path[..d], Missing(g, path), tables[d - r], path[j]);
  }

  lemma TableCount(g: Graph, path: seq<Vertex>, r: nat, tables: seq<seq<nat>>)
    requires Rolled(g, path, r, tables)
    ensures r <= |path| && |tables| == |path| - r + 1
    ensures ResidualDegrees(g, path, Missing(g, path), tables[|path| - r])
  {
  }

  /** Back at depth r the entries are right exactly when none of them misses anything. */
  lemma RightIffNoneMissing(g: Graph, path: seq<Vertex>, r: nat, deficit: seq<nat>, table: seq<nat>)
    requires IsPath(g, path) && r <= |path| && ResidualDegrees(g, path[..r], deficit, table)
    ensures Right(g, Elems(path[..r]), table) <==> NoneMissing(g, path, r, deficit)
  {
    hide ResidualDegrees, Neighbours, IsPath;
    assert |deficit| == |table| == Size(g) by {
      TableLength(g, path[..r], deficit, table);
    }
    forall v | 0 <= v < Size(g) && v !in path[..r]
      ensures table[v] == |Neighbours(g, v) - Elems(path[..r])| <==> deficit[v] == 0
    {
      UnplacedEntry(g, path[..r], deficit, table, v);
    }
  }

  lemma TableLength(g: Graph, path: seq<Vertex>, deficit: seq<nat>, table: seq<nat>)
    requires ResidualDegrees(g, path, deficit, table)
    ensures |deficit| == |table| == Size(g)
  {
  }

  /**
    Back at depth r all entries are right exactly when every vertex taken off had
    no unplaced neighbour at its own place.
   */
  lemma RightIffUnwindable(g: Graph, path: seq<Vertex>, r: nat, tables: seq<seq<nat>>)
    requires IsPath(g, path) && Rolled(g, path, r, tables)
    ensures Right(g, Elems(path[..r]), tables[0]) <==> Unwindable(g, path, r)
  {
    hide Elems, Missing, Neighbours, NoneMissing, ResidualDegrees, Right, Rolled, Unwindable;
    TableCount(g, path, r, tables);
    RolledKeeps(g, path, r, tables, r);
    RightIffNoneMissing(g, path, r, Missing(g, path), tables[0]);
    NoneMissingIffUnwindable(g, path, r);
  }

  /**
    Taking off a vertex that was already placed when the residual degrees were
    last rebuilt leaves them right for the shorter path exactly when that vertex
    has no unplaced neighbour.
   */
  lemma UndoPastRebuild(g: Graph, path: seq<Vertex>, w: Vertex, loaded: seq<nat>, undone: seq<nat>)
    requires IsPath(g, path + [w]) && ResidualDegrees(g, path + [w], Missing(g, path + [w]), loaded)
    requires CountsMoved(g, Elems(path) + {w}, w, Size(g), loaded, undone)
    ensures Right(g, Elems(path), undone) <==> Neighbours(g, w) <= Elems(path)
  {
    hide CountsMoved, Elems, Missing, Neighbours, ResidualDegrees, Right;
    var Q := path + [w];
    assert Q[..|path|] == path && Q[|path|] == w;
    RightIffUnwindable(g, Q, |path|, [undone, loaded]);
    assert Unwindable(g, Q, |path|) <==> Neighbours(g, w) <= Elems(path);
  }

  /** No entry of an unplaced vertex is ever too large, so the residual-degree prune stays a proof. */
  lemma RolledStillProves(g: Graph, k: nat, path: seq<Vertex>, deficit: seq<nat>, table: seq<nat>, v: Vertex)
    requires ResidualDegrees(g, path, deficit, table) && v in Vertices(g) - Elems(path)
    ensures v < |table| && table[v] <= |Neighbours(g, v) - Elems(path)|
    ensures (table[v] + 1) / 2 > k ==> !Feasible(g, k, Elems(path))
  {
    hide Feasible, Neighbours, ResidualDegrees;
    UnplacedEntry(g, path, deficit, table, v);
    if (table[v] + 1) / 2 > k {
      ResidualDegreeProves(g, k, Elems(path), v);
    }
  }

  // ----- placing on -----

  /** The tables while the vertices of ws are placed after Q, each entry staying a count. */
  ghost predicate PlacedOn(g: Graph, Q: seq<Vertex>, ws: seq<Vertex>, tables: seq<seq<nat>>) {
    && IsPath(g, Q + ws) && |tables| == |ws| + 1
    && forall i :: 0 <= i < |ws| ==>
         CountsMoved(g, Elems((Q + ws)[..|Q| + i]) + {ws[i]}, ws[i], Size(g), tables[i + 1], tables[i])
  }

  lemma {:induction false} PlacedKeeps(g: Graph, Q: seq<Vertex>, ws: seq<Vertex>, deficit: seq<nat>,
                                       tables: seq<seq<nat>>, i: nat)
    requires PlacedOn(g, Q, ws, tables) && i <= |ws| && ResidualDegrees(g, Q, deficit, tables[0])
    ensures ResidualDegrees(g, (Q + ws)[..|Q| + i], deficit, tables[i])
  {
    hide CountsMoved, Elems, IsPath, PlacedOn, ResidualDegrees;
    var P := Q + ws;
    if i == 0 {
      assert P[..|Q|] == Q;
    } else {
      PlacedKeeps(g, Q, ws, deficit, tables, i - 1);
      var d := |Q| + i - 1;
      PlacedStep(g, Q, ws, tables, i - 1);
      LaterIsOff(g, P, d, d);
      assert P[..d + 1] == P[..d] + [P[d]];
      PlacementMovesResiduals(g, P[..d], deficit, P[d], tables[i], tables[i - 1]);
    }
  }

  lemma PlacedStep(g: Graph, Q: seq<Vertex>, ws: seq<Vertex>, tables: seq<seq<nat>>, i: nat)
    requires PlacedOn(g, Q, ws, tables) && i < |ws|
    ensures IsPath(g, Q + ws) && (Q + ws)[|Q| + i] == ws[i] && |tables| == |ws| + 1
    ensures CountsMoved(g, Elems((Q + ws)[..|Q| + i]) + {ws[i]}, ws[i], Size(g), tables[i + 1], tables[i])
  {
    hide CountsMoved, IsPath;
  }

  /**
    A vertex whose entry is short cannot see all its unplaced neighbours placed
    before it: some placement would take its entry below zero.
   */
  lemma ShortEntryUnderflows(g: Graph, Q: seq<Vertex>, ws: seq<Vertex>, deficit: seq<nat>, tables: seq<seq<nat>>,
                             v: Vertex)
    requires tables != [] && ResidualDegrees(g, Q, deficit, tables[0])
    requires v in Vertices(g) && v !in Q + ws && deficit[v] > 0
    requires Neighbours(g, v) - Elems(Q) <= Elems(ws)
    ensures !PlacedOn(g, Q, ws, tables)
  {
    if PlacedOn(g, Q, ws, tables) {
      PlacedMissesNothing(g, Q, ws, deficit, tables, v);
      assert false;
    }
  }

  lemma PlacedMissesNothing(g: Graph, Q: seq<Vertex>, ws: seq<Vertex>, deficit: seq<nat>, tables: seq<seq<nat>>,
                            v: Vertex)
    requires PlacedOn(g, Q, ws, tables) && ResidualDegrees(g, Q, deficit, tables[0])
    requires v in Vertices(g) && v !in Q + ws && Neighbours(g, v) - Elems(Q) <= Elems(ws)
    ensures |deficit| == Size(g) && deficit[v] == 0
  {
    hide Neighbours, ResidualDegrees;
    PlacedKeeps(g, Q, ws, deficit, tables, |ws|);
    assert (Q + ws)[..|Q| + |ws|] == Q + ws;
    UnplacedEntry(g, Q + ws, deficit, tables[|ws|], v);
    assert Neighbours(g, v) - Elems(Q + ws) == {};
  }

  /** Back at depth r: either all entries are right, or some vertex is bound to underflow. */
  lemma RightOrUnderflows(g: Graph, path: seq<Vertex>, r: nat, tables: seq<seq<nat>>) returns (v: Vertex)
    requires IsPath(g, path) && Rolled(g, path, r, tables) && !Unwindable(g, path, r)
    ensures v in Vertices(g) - Elems(path[..r])
    ensures forall ws, after: seq<seq<nat>> ::
              Neighbours(g, v) - Elems(path[..r]) <= Elems(ws) && v !in ws && after != [] && after[0] == tables[0] ==>
                !PlacedOn(g, path[..r], ws, after)
  {
    hide Deficit, Missing, Neighbours, PlacedOn, ResidualDegrees, Rolled;
    TableCount(g, path, r, tables);
    var j :| r <= j < |path| && !(Neighbours(g, path[j]) <= Elems(path[..j]));
    v := path[j];
    MissingAt(g, path, j);
    LaterIsOff(g, path, r, j);
    RolledKeeps(g, path, r, tables, r);
    forall ws, after: seq<seq<nat>> | Neighbours(g, v) - Elems(path[..r]) <= Elems(ws) && v !in ws && after != []
                                      && after[0] == tables[0]
      ensures !PlacedOn(g, path[..r], ws, after)
    {
      ShortEntryUnderflows(g, path[..r], ws, Missing(g, path), after, v);
    }
  }
}
