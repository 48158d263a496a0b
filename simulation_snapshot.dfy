/** One recorded step of the simulation (SimulationSnapshot.cs). */
module SimulationSnapshots {

  /** An agent position, the integer pair of `Geometry/Primitives/Vector2.cs`. */
  datatype Vector2 = Vector2(X: int, Y: int)

  /** How many agents the text preview lists at most. */
  const PreviewLimit := 5

  /** `min(StoredAgents, 5)`: the number of agents the preview lists. */
  function PreviewCount(storedAgents: int): (r: int)
    ensures r <= PreviewLimit && r <= storedAgents
    ensures r == PreviewLimit || r == storedAgents
  {
    if storedAgents <= PreviewLimit then storedAgents else PreviewLimit
  }

  /** One preview row: its index, the agent's id and its position. */
  datatype PreviewRow = PreviewRow(Index: int, Id: int, Position: Vector2)

  /** A snapshot with fixed-capacity id and position buffers and a fill counter. */
  class SimulationSnapshot {
    var Step: int
    var StoredAgents: int
    const Ids: array<int>
    const Positions: array<Vector2>
    var AllComplete: bool

    /** The fill counter stays within the capacity the buffers were made with. */
    predicate Valid()
      reads this
    {
      0 <= StoredAgents <= Ids.Length && Ids.Length == Positions.Length
    }

    /** Room for `n` agents; both buffers hold their default values; nothing stored yet. */
    constructor (n: int, step: int)
      requires n >= 0
      ensures Valid()
      ensures Step == step && StoredAgents == 0 && !AllComplete
      ensures Ids.Length == n && Positions.Length == n
      ensures forall i :: 0 <= i < n ==> Ids[i] == 0 && Positions[i] == Vector2(0, 0)
      ensures fresh(Ids) && fresh(Positions)
    {
      Step := step;
      StoredAgents := 0;
      Ids := new int[n](_ => 0);
      Positions := new Vector2[n](_ => Vector2(0, 0));
      AllComplete := false;
    }

    /** Writes the agent into the next free slot of both buffers and counts it. */
    method AddAgent(id: int, position: Vector2)
      requires Valid()
      requires StoredAgents < Ids.Length
      modifies this, Ids, Positions
      ensures Valid()
      ensures StoredAgents == old(StoredAgents) + 1
      ensures Ids[..] == old(Ids[..])[old(StoredAgents) := id]
      ensures Positions[..] == old(Positions[..])[old(StoredAgents) := position]
      ensures Step == old(Step) && AllComplete == old(AllComplete)
    {
      Ids[StoredAgents] := id;
      Positions[StoredAgents] := position;
      StoredAgents := StoredAgents + 1;
    }

    /**
      The agent rows and the trailing "..." of the text form: the first
      min(StoredAgents, 5) stored agents in slot order, and the ellipsis exactly
      when more agents are stored than listed.
    */
    method Preview() returns (rows: seq<PreviewRow>, ellipsis: bool)
      requires Valid()
      ensures |rows| == PreviewCount(StoredAgents)
      ensures forall i :: 0 <= i < |rows| ==> rows[i] == PreviewRow(i, Ids[i], Positions[i])
      ensures ellipsis <==> StoredAgents > PreviewLimit
    {
      var previewCount := PreviewCount(StoredAgents);
      rows := [];
      ellipsis := false;
      if previewCount > 0 {
        var i := 0;
        while i < previewCount
          invariant 0 <= i <= previewCount
          invariant |rows| == i
          invariant forall j :: 0 <= j < i ==> rows[j] == PreviewRow(j, Ids[j], Positions[j])
        {
          rows := rows + [PreviewRow(i, Ids[i], Positions[i])];
          i := i + 1;
        }
        if StoredAgents > previewCount {
          ellipsis := true;
        }
      }
    }
  }
}
