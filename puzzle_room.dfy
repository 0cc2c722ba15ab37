/**
  The puzzle room: a riddle, a reward for the first right answer, and the
  players who have entered and are told when the riddle is solved.
*/
module PuzzleRooms {
  import opened Wrappers
  import opened JavaLang
  import opened Positions
  import opened Artifacts
  import opened Riddles
  import opened RoomCore
  import opened Players

  const PuzzleDescription: string := "A mysterious room with strange markings on the walls and floor."

  /** Question and answer of each riddle a puzzle room can pose. */
  const RiddleTable: seq<(string, string)> := [
    ("I speak without a mouth and hear without ears. I have no body, but I come alive with wind. What am I?", "echo"),
    ("The more you take, the more you leave behind. What am I?", "footsteps"),
    ("What has keys but no locks, space but no room, and you can enter but not go in?", "keyboard"),
    ("What gets wetter as it dries?", "towel"),
    ("I'm light as a feather, yet the strongest person can't hold me for more than a few minutes. What am I?", "breath")
  ]

  const RewardTable: seq<Artifact> := [
    StatItem("Ancient Medallion", "A medallion with strange symbols", 0, 5, 0),
    StatItem("Mystic Crystal", "A glowing crystal that hums with power", 10, 0, 0),
    StatItem("Enchanted Ring", "A ring that protects its wearer", 0, 0, 5),
    StatItem("Magical Amulet", "An amulet that enhances abilities", 5, 3, 2),
    StatItem("Arcane Scepter", "A powerful scepter crackling with energy", 0, 10, 0)
  ]

  function CreatePuzzle(index: Below5): (p: RiddlePuzzle)
    ensures p.question == RiddleTable[index].0
    ensures p.answer == RiddleTable[index].1
  {
    NewRiddlePuzzle(RiddleTable[index].0, RiddleTable[index].1)
  }

  /** No player is registered twice. */
  predicate NoDuplicates(s: seq<Player>)
  {
    forall i, j :: 0 <= i < j < |s| ==> s[i] != s[j]
  }

  /** `List.remove(Object)`: drops the first occurrence, if any. */
  function RemoveFirst(s: seq<Player>, p: Player): (r: seq<Player>)
    ensures p !in s ==> r == s
    ensures p in s ==> |r| == |s| - 1
    ensures multiset(r) == multiset(s) - multiset{p}
  {
    if s == [] then []
    else
      assert s == [s[0]] + s[1..];
      if s[0] == p then s[1..] else [s[0]] + RemoveFirst(s[1..], p)
  }

  /** In a list without duplicates, removing a player removes it entirely and keeps the rest in order. */
  lemma {:induction false} RemoveFirstNoDuplicates(s: seq<Player>, p: Player)
    requires NoDuplicates(s)
    ensures p !in RemoveFirst(s, p)
    ensures NoDuplicates(RemoveFirst(s, p))
    ensures forall q :: q in s && q != p ==> q in RemoveFirst(s, p)
  {
    if s != [] && s[0] != p {
      assert NoDuplicates(s[1..]);
      RemoveFirstNoDuplicates(s[1..], p);
      var r := RemoveFirst(s, p);
      assert r == [s[0]] + RemoveFirst(s[1..], p);
      assert s[0] !in RemoveFirst(s[1..], p) by {
        assert s[0] !in s[1..];
        assert multiset(RemoveFirst(s[1..], p)) == multiset(s[1..]) - multiset{p};
        assert s[0] !in multiset(RemoveFirst(s[1..], p));
      }
    } else if s != [] {
      assert s[0] !in s[1..];
      forall q | q in s && q != p ensures q in s[1..] {
        var k :| 0 <= k < |s| && s[k] == q;
        assert k != 0;
        assert s[1..][k - 1] == q;
      }
    }
  }

  /** A notification delivered to one observer. */
  datatype Notification = Notification(observer: Player, message: string)

  /** The answer an action submits: none, the empty answer of a bare "solve", or the text after "answer ". */
  function SubmittedAnswer(action: string): (r: Option<string>)
    ensures StartsWith(action, "answer ") ==> r == Some(action[7..])
    ensures !StartsWith(action, "answer ") && EqualsIgnoreCase(action, "solve") ==> r == Some("")
    ensures r.None? <==> !StartsWith(action, "answer ") && !EqualsIgnoreCase(action, "solve")
  {
    if EqualsIgnoreCase(action, "solve") || StartsWith(action, "answer ") then
      Some(if StartsWith(action, "answer ") then action[7..] else "")
    else None
  }

  /** A bare "solve", in any letter case, submits the empty answer, which no riddle accepts. */
  lemma BareSolveAlwaysFails(p: RiddlePuzzle, action: string)
    requires EqualsIgnoreCase(action, "solve")
    ensures !AttemptSolution(p, SubmittedAnswer(action))
  {
    assert action[0] == 's' || action[0] == 'S';
    assert !StartsWith(action, "answer ");
  }

  /** "answer" only counts in lower case: "Answer echo" submits nothing. */
  lemma AnswerPrefixIsCaseSensitive()
    ensures SubmittedAnswer("Answer echo").None?
    ensures SubmittedAnswer("answer echo") == Some("echo")
  {
    assert "Answer echo"[..7][0] == 'A' != "answer "[0];
    assert "answer echo"[..7] == "answer ";
    assert "answer echo"[7..] == "echo";
  }

  function SolvedMessage(reward: Artifact): string
  {
    "The puzzle in the room has been solved! A hidden compartment opens revealing: " + reward.name
  }

  /** What an interaction did; the text shown for it is not modelled. */
  datatype PuzzleOutcome =
    | AlreadySolved
    | Correct(reward: Artifact, notified: seq<Notification>)
    | WrongAnswer
    | ShowHint(hint: string)
    | Examined(description: string)
    | PuzzleHelp

  datatype EnterOutcome = EnteredSolved | EnteredUnsolved(riddle: string)

  class PuzzleRoom {
    const base: Room
    const puzzle: RiddlePuzzle
    const reward: Artifact
    var solved: bool
    var observers: seq<Player>

    ghost predicate Valid()
      reads this
    {
      NoDuplicates(observers)
    }

    /** A fresh room: unsolved, no observers, the riddle and reward given by the two draws. */
    constructor(position: Position, riddle: Below5, rewardIndex: Below5)
      ensures fresh(base)
      ensures base.roomType == Puzzle && base.position == position && !base.visited
      ensures base.description == PuzzleDescription
      ensures puzzle == CreatePuzzle(riddle) && reward == RewardTable[rewardIndex]
      ensures !solved && observers == []
      ensures Valid()
    {
      base := new Room(Puzzle, position, PuzzleDescription);
      puzzle := CreatePuzzle(riddle);
      reward := RewardTable[rewardIndex];
      solved := false;
      observers := [];
    }

    /** Registers a player once: a player already listed is not added again. */
    method AddObserver(p: Player)
      modifies this
      ensures p in old(observers) ==> observers == old(observers)
      ensures p !in old(observers) ==> observers == old(observers) + [p]
      ensures old(Valid()) ==> Valid()
      ensures solved == old(solved)
    {
      if p !in observers {
        observers := observers + [p];
      }
    }

    method RemoveObserver(p: Player)
      modifies this
      ensures observers == RemoveFirst(old(observers), p)
      ensures old(Valid()) ==> Valid() && p !in observers
      ensures solved == old(solved)
    {
      if old(Valid()) {
        RemoveFirstNoDuplicates(observers, p);
      }
      observers := RemoveFirst(observers, p);
    }

    /** One notification per registered observer, in registration order. */
    method NotifyObservers(message: string) returns (log: seq<Notification>)
      ensures |log| == |observers|
      ensures forall i :: 0 <= i < |log| ==> log[i] == Notification(observers[i], message)
    {
      log := [];
      var i := 0;
      while i < |observers|
        invariant 0 <= i <= |observers| && |log| == i
        invariant forall k :: 0 <= k < i ==> log[k] == Notification(observers[k], message)
      {
        log := log + [Notification(observers[i], message)];
        i := i + 1;
      }
    }

    /** Marks the room visited and registers the player, at most once. */
    method OnEnter(player: Player) returns (outcome: EnterOutcome)
      modifies base, this
      ensures base.visited
      ensures player in observers
      ensures player in old(observers) ==> observers == old(observers)
      ensures player !in old(observers) ==> observers == old(observers) + [player]
      ensures old(Valid()) ==> Valid()
      ensures solved == old(solved)
      ensures outcome == (if solved then EnteredSolved else EnteredUnsolved(puzzle.description))
    {
      base.MarkVisited();
      AddObserver(player);
      outcome := if solved then EnteredSolved else EnteredUnsolved(puzzle.description);
    }

    /**
      Once solved, the room refuses everything. Otherwise "solve" or
      "answer X" tries the submitted answer: a right one solves the room,
      gives the reward once and tells every observer; a wrong one, a hint
      or a look changes nothing.
    */
    method OnInteract(player: Player, action: string) returns (outcome: PuzzleOutcome)
      modifies this, player
      ensures observers == old(observers)
      ensures old(solved) ==> outcome == AlreadySolved && solved
      ensures var attempt := SubmittedAnswer(action);
              !old(solved) && attempt.Some? && AttemptSolution(puzzle, attempt) ==>
                solved && player.inventory == old(player.inventory) + [reward]
                && player.maxHealth == old(player.maxHealth) + reward.healthBonus
                && player.health == old(player.health) + reward.healthBonus
                && player.attack == old(player.attack) + reward.attackBonus
                && player.defense == old(player.defense) + reward.defenseBonus
                && outcome.Correct? && outcome.reward == reward
                && |outcome.notified| == |observers|
                && (forall i :: 0 <= i < |observers| ==> outcome.notified[i] == Notification(observers[i], SolvedMessage(reward)))
      ensures var attempt := SubmittedAnswer(action);
              old(solved) || !(attempt.Some? && AttemptSolution(puzzle, attempt)) ==>
                solved == old(solved)
                && player.inventory == old(player.inventory) && player.health == old(player.health)
                && player.maxHealth == old(player.maxHealth) && player.attack == old(player.attack)
                && player.defense == old(player.defense)
      ensures var attempt := SubmittedAnswer(action);
              !old(solved) && attempt.Some? && !AttemptSolution(puzzle, attempt) ==> outcome == WrongAnswer
      ensures !old(solved) && SubmittedAnswer(action).None? ==>
                outcome == (if EqualsIgnoreCase(action, "hint") then ShowHint(puzzle.hint)
                            else if EqualsIgnoreCase(action, "examine") || EqualsIgnoreCase(action, "look") then Examined(puzzle.description)
                            else PuzzleHelp)
      ensures player.level == old(player.level) && player.experience == old(player.experience)
      ensures player.position == old(player.position) && player.remainingMoves == old(player.remainingMoves)
      ensures player.isTrapped == old(player.isTrapped)
      ensures player.trapRiddle == old(player.trapRiddle) && player.trapAnswer == old(player.trapAnswer)
      ensures old(player.Valid()) && reward.healthBonus >= 0 ==> player.Valid()
    {
      if solved {
        return AlreadySolved;
      }
      var attempt := SubmittedAnswer(action);
      if attempt.Some? {
        if AttemptSolution(puzzle, attempt) {
          solved := true;
          player.AddArtifact(reward);
          var log := NotifyObservers(SolvedMessage(reward));
          return Correct(reward, log);
        } else {
          return WrongAnswer;
        }
      } else if EqualsIgnoreCase(action, "hint") {
        return ShowHint(puzzle.hint);
      } else if EqualsIgnoreCase(action, "examine") || EqualsIgnoreCase(action, "look") {
        return Examined(puzzle.description);
      }
      return PuzzleHelp;
    }
  }

  /** With no duplicates registered, a solve notifies each observer exactly once. */
  lemma NotifiedOnce(observers: seq<Player>, log: seq<Notification>, message: string, p: Player)
    requires NoDuplicates(observers)
    requires |log| == |observers|
    requires forall i :: 0 <= i < |log| ==> log[i] == Notification(observers[i], message)
    requires p in observers
    ensures exists i :: 0 <= i < |log| && log[i].observer == p
    ensures forall i, j :: 0 <= i < |log| && 0 <= j < |log| && log[i].observer == p && log[j].observer == p ==> i == j
  {
    var k :| 0 <= k < |observers| && observers[k] == p;
    assert log[k].observer == p;
  }
}
