/** The win/draw counters kept across games. Loading and saving them is an
    outside collaborator: the current counters come in as a value and the
    updated counters go out as one. */
module GameStatistics {
  import opened Board

  datatype Statistics = Statistics(playerXWins: int, playerOWins: int, draws: int)

  /** The counters a fresh store starts from. */
  const DefaultStatistics := Statistics(0, 0, 0)

  function Total(s: Statistics): int {
    s.playerXWins + s.playerOWins + s.draws
  }

  /** Record the outcome `winner` of one game. */
  function Update(current: Statistics, winner: string): (s: Statistics)
    ensures winner == "X" ==> s == current.(playerXWins := current.playerXWins + 1)
    ensures winner == "O" ==> s == current.(playerOWins := current.playerOWins + 1)
    ensures winner == "DRAW" ==> s == current.(draws := current.draws + 1)
    ensures winner !in {"X", "O", "DRAW"} ==> s == current
  {
    if winner == "X" then current.(playerXWins := current.playerXWins + 1)
    else if winner == "O" then current.(playerOWins := current.playerOWins + 1)
    else if winner == "DRAW" then current.(draws := current.draws + 1)
    else current
  }

  /** Back to all zeros. */
  function Reset(): (s: Statistics)
    ensures s.playerXWins == 0 && s.playerOWins == 0 && s.draws == 0
    ensures Total(s) == 0
  {
    DefaultStatistics
  }

  /** No counter ever decreases, and the total grows by one exactly when the
      winner is one of the three recognised outcomes. */
  lemma UpdateMonotone(current: Statistics, winner: string)
    ensures Update(current, winner).playerXWins >= current.playerXWins
    ensures Update(current, winner).playerOWins >= current.playerOWins
    ensures Update(current, winner).draws >= current.draws
    ensures Total(Update(current, winner)) == Total(current) + (if winner in {"X", "O", "DRAW"} then 1 else 0)
  {
  }

  /** The verdict of a finished game is counted exactly once; an unfinished one not at all. */
  lemma FinishedGameCountedOnce(current: Statistics, w: Winner)
    ensures w != Nobody ==> Total(Update(current, WinnerString(w))) == Total(current) + 1
    ensures w == Nobody ==> Update(current, WinnerString(w)) == current
    ensures w == Wins(PX) ==> Update(current, WinnerString(w)).playerXWins == current.playerXWins + 1
    ensures w == Wins(PO) ==> Update(current, WinnerString(w)).playerOWins == current.playerOWins + 1
    ensures w == Draw ==> Update(current, WinnerString(w)).draws == current.draws + 1
  {
  }

  /** The counters after recording `winners` in order, starting from `start`. */
  function Replay(start: Statistics, winners: seq<string>): Statistics
    decreases |winners|
  {
    if |winners| == 0 then start else Replay(Update(start, winners[0]), winners[1..])
  }

  /** How many entries of `winners` equal `w`. */
  function Occurrences(winners: seq<string>, w: string): nat
    decreases |winners|
  {
    if |winners| == 0 then 0
    else (if winners[0] == w then 1 else 0) + Occurrences(winners[1..], w)
  }

  /** Each counter grows by the number of games with its outcome. */
  lemma {:induction false} ReplayCounts(start: Statistics, winners: seq<string>)
    ensures Replay(start, winners)
            == Statistics(start.playerXWins + Occurrences(winners, "X"),
                          start.playerOWins + Occurrences(winners, "O"),
                          start.draws + Occurrences(winners, "DRAW"))
    decreases |winners|
  {
    if |winners| > 0 {
      ReplayCounts(Update(start, winners[0]), winners[1..]);
    }
  }

  /** From the default counters, the record of a series of games holds exactly
      the number of X wins, O wins and draws in it. */
  lemma ReplayFromDefault(winners: seq<string>)
    ensures Replay(DefaultStatistics, winners)
            == Statistics(Occurrences(winners, "X"), Occurrences(winners, "O"), Occurrences(winners, "DRAW"))
  {
    ReplayCounts(DefaultStatistics, winners);
  }
}
