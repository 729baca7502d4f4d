/** The submarine command replay: parsing `direction amount` lines and
    folding the commands over a position, once with direct depth changes
    and once steering through `aim`. */
module Dive {
  import opened Wrappers

  datatype Direction = Forward | Down | Up

  /** The lower-case word for each direction. */
  function Name(d: Direction): string
  {
    match d
    case Forward => "forward"
    case Down => "down"
    case Up => "up"
  }

  /** ASCII case folding, one character at a time. */
  function LowerChar(c: char): char
  {
    if 'A' <= c <= 'Z' then (c as int + 32) as char else c
  }

  function Lower(s: string): string
  {
    seq(|s|, i requires 0 <= i < |s| => LowerChar(s[i]))
  }

  /** The text `from_str` reports for a word that names no direction. */
  function InvalidDirection(s: string): string
  {
    "'" + s + "' is not a valid value for Direction"
  }

  /** `Direction::from_str`: the three words, in any letter case. */
  function ParseDirection(s: string): (r: Result<Direction, string>)
    ensures r.Success? <==> Lower(s) in {"forward", "down", "up"}
    ensures r.Success? ==> Name(r.value) == Lower(s)
    ensures r.Failure? ==> r.error == InvalidDirection(s)
  {
    var word := Lower(s);
    if word == "forward" then Success(Forward)
    else if word == "down" then Success(Down)
    else if word == "up" then Success(Up)
    else Failure(InvalidDirection(s))
  }

  /** Each direction's own word parses back to it. */
  lemma ParseName(d: Direction)
    ensures ParseDirection(Name(d)) == Success(d)
  {
    var w := Name(d);
    assert Lower(w) == w;
  }

  /** Two words that differ only in letter case parse alike. */
  lemma ParseIgnoresCase(s: string, t: string)
    requires Lower(s) == Lower(t)
    ensures ParseDirection(s).Success? <==> ParseDirection(t).Success?
    ensures ParseDirection(s).Success? ==> ParseDirection(s).value == ParseDirection(t).value
  {
    if ParseDirection(s).Success? {
      NameInjective(ParseDirection(s).value, ParseDirection(t).value);
    }
  }

  lemma NameInjective(d: Direction, e: Direction)
    requires Name(d) == Name(e)
    ensures d == e
  {
  }

  datatype Position = Position(horizontal: int, depth: int, aim: int)

  datatype Command = Command(direction: Direction, movement: int)

  /** Where a line cannot become a command; the source panics in each case
      through an `unwrap`. */
  datatype ParseError =
    | MissingSeparator
    | BadDirection(message: string)
    | BadAmount(text: string)

  /** `splitn(2, ' ')` collected into a pair: the text before the first
      space and everything after it, or nothing when there is no space. */
  function SplitOnce(line: string): (r: Option<(string, string)>)
    ensures r.None? <==> ' ' !in line
    ensures r.Some? ==> r.value.0 + " " + r.value.1 == line && ' ' !in r.value.0
  {
    if |line| == 0 then None
    else if line[0] == ' ' then Some(("", line[1..]))
    else
      match SplitOnce(line[1..])
      case None => None
      case Some((before, after)) => Some(([line[0]] + before, after))
  }

  /** The position of the first space of a line that has one. */
  function FirstSpace(line: string): (i: nat)
    requires ' ' in line
    ensures i < |line| && line[i] == ' ' && ' ' !in line[..i]
  {
    if line[0] == ' ' then 0
    else
      assert ' ' in line[1..];
      var j := FirstSpace(line[1..]);
      assert line[..j + 1] == [line[0]] + line[1..][..j];
      j + 1
  }

  /** The split is at the first space: the amount keeps any later spaces. */
  lemma {:induction false} SplitAtFirstSpace(line: string)
    requires ' ' in line
    ensures SplitOnce(line) == Some((line[..FirstSpace(line)], line[FirstSpace(line) + 1..]))
    decreases |line|
  {
    if line[0] != ' ' {
      var rest := line[1..];
      assert ' ' in rest;
      SplitAtFirstSpace(rest);
      var j := FirstSpace(rest);
      assert [line[0]] + rest[..j] == line[..j + 1];
      assert rest[j + 1..] == line[j + 2..];
    }
  }

  /** Splitting a joined pair gives the pair back, whatever the second half
      contains. */
  lemma {:induction false} SplitJoin(before: string, after: string)
    requires ' ' !in before
    ensures SplitOnce(before + " " + after) == Some((before, after))
    decreases |before|
  {
    var line := before + " " + after;
    if |before| == 0 {
      assert line[1..] == after;
    } else {
      assert line[0] == before[0];
      assert line[1..] == before[1..] + " " + after;
      SplitJoin(before[1..], after);
      assert [before[0]] + before[1..] == before;
    }
  }

  /** `parseCommand`: split the line at its first space, read the direction
      from the first half and the amount from the rest.  Reading the amount
      is `str::parse::<isize>`, passed in as `parseAmount`. */
  function ParseCommand(line: string, parseAmount: string -> Option<int>): (r: Result<Command, ParseError>)
    ensures ' ' !in line <==> r == Failure(MissingSeparator)
    ensures ' ' in line ==>
      var i := FirstSpace(line);
      (r.Success? <==> ParseDirection(line[..i]).Success? && parseAmount(line[i + 1..]).Some?) &&
      (r.Success? ==> r.value == Command(ParseDirection(line[..i]).value, parseAmount(line[i + 1..]).value))
  {
    if ' ' in line then SplitAtFirstSpace(line); ParseSplit(line, parseAmount)
    else ParseSplit(line, parseAmount)
  }

  function ParseSplit(line: string, parseAmount: string -> Option<int>): Result<Command, ParseError>
  {
    match SplitOnce(line)
    case None => Failure(MissingSeparator)
    case Some((word, amount)) =>
      match ParseDirection(word)
      case Failure(message) => Failure(BadDirection(message))
      case Success(direction) =>
        match parseAmount(amount)
        case None => Failure(BadAmount(amount))
        case Some(movement) => Success(Command(direction, movement))
  }

  /** A command written out as its direction word, a space and a text the
      amount reader accepts is read back unchanged. */
  lemma ParseCommandRoundTrip(c: Command, amount: string, parseAmount: string -> Option<int>)
    requires parseAmount(amount) == Some(c.movement)
    ensures ParseCommand(Name(c.direction) + " " + amount, parseAmount) == Success(c)
  {
    var word := Name(c.direction);
    assert ' ' !in word;
    SplitJoin(word, amount);
    ParseName(c.direction);
  }

  /** The sum of the movements of the commands in direction d. */
  function Total(cmds: seq<Command>, d: Direction): int
  {
    if |cmds| == 0 then 0
    else (if cmds[0].direction == d then cmds[0].movement else 0) + Total(cmds[1..], d)
  }

  /** Part one's step: Up and Down move the depth, Forward the horizontal
      position, and aim is reset to zero. */
  function Move(p: Position, c: Command): Position
  {
    match c.direction
    case Up => Position(p.horizontal, p.depth - c.movement, 0)
    case Down => Position(p.horizontal, p.depth + c.movement, 0)
    case Forward => Position(p.horizontal + c.movement, p.depth, 0)
  }

  /** `processCommand`: the left fold of `Move`. */
  function ProcessCommand(p: Position, cmds: seq<Command>): (r: Position)
    ensures r.horizontal == p.horizontal + Total(cmds, Forward)
    ensures r.depth == p.depth + Total(cmds, Down) - Total(cmds, Up)
    ensures r.aim == if |cmds| == 0 then p.aim else 0
    decreases |cmds|
  {
    if |cmds| == 0 then p
    else ProcessCommand(Move(p, cmds[0]), cmds[1..])
  }

  /** Part two's step: Up and Down turn the aim; Forward moves ahead and
      sinks by aim times the movement. */
  function Steer(p: Position, c: Command): Position
  {
    match c.direction
    case Up => Position(p.horizontal, p.depth, p.aim - c.movement)
    case Down => Position(p.horizontal, p.depth, p.aim + c.movement)
    case Forward => Position(p.horizontal + c.movement, p.depth + p.aim * c.movement, p.aim)
  }

  /** `processCommandPart2`: the left fold of `Steer`. */
  function ProcessCommandPart2(p: Position, cmds: seq<Command>): (r: Position)
    ensures r.horizontal == p.horizontal + Total(cmds, Forward)
    ensures r.aim == p.aim + Total(cmds, Down) - Total(cmds, Up)
    decreases |cmds|
  {
    if |cmds| == 0 then p
    else ProcessCommandPart2(Steer(p, cmds[0]), cmds[1..])
  }

  /** An empty command list leaves the start position as it is, in both
      parts. */
  lemma EmptyReplay(p: Position)
    ensures ProcessCommand(p, []) == p
    ensures ProcessCommandPart2(p, []) == p
  {
  }

  /** Replaying a concatenation is replaying its halves one after the
      other. */
  lemma {:induction false} ProcessCommandAppend(p: Position, a: seq<Command>, b: seq<Command>)
    ensures ProcessCommand(p, a + b) == ProcessCommand(ProcessCommand(p, a), b)
    decreases |a|
  {
    if |a| == 0 {
      assert a + b == b;
    } else {
      assert (a + b)[1..] == a[1..] + b;
      ProcessCommandAppend(Move(p, a[0]), a[1..], b);
    }
  }

  lemma {:induction false} ProcessCommandPart2Append(p: Position, a: seq<Command>, b: seq<Command>)
    ensures ProcessCommandPart2(p, a + b) == ProcessCommandPart2(ProcessCommandPart2(p, a), b)
    decreases |a|
  {
    if |a| == 0 {
      assert a + b == b;
    } else {
      assert (a + b)[1..] == a[1..] + b;
      ProcessCommandPart2Append(Steer(p, a[0]), a[1..], b);
    }
  }

  /** The depth part two gains: each Forward command, weighted by the aim
      in force when it is read, that is the starting aim plus the net Down
      movement of the commands before it.  Built from the last command
      back, independently of the fold. */
  function AimedDepth(aim: int, cmds: seq<Command>): int
  {
    if |cmds| == 0 then 0
    else
      var init, last := cmds[..|cmds| - 1], cmds[|cmds| - 1];
      AimedDepth(aim, init) +
        (if last.direction == Forward
         then (aim + Total(init, Down) - Total(init, Up)) * last.movement
         else 0)
  }

  /** Part two's final depth is the start depth plus the aimed depth. */
  lemma {:induction false} ProcessCommandPart2Depth(p: Position, cmds: seq<Command>)
    ensures ProcessCommandPart2(p, cmds).depth == p.depth + AimedDepth(p.aim, cmds)
    decreases |cmds|
  {
    if |cmds| > 0 {
      var init, last := cmds[..|cmds| - 1], cmds[|cmds| - 1];
      assert cmds == init + [last];
      ProcessCommandPart2Append(p, init, [last]);
      ProcessCommandPart2Depth(p, init);
      var q := ProcessCommandPart2(p, init);
      assert ProcessCommandPart2(q, [last]) == Steer(q, last);
    }
  }

  const Origin := Position(0, 0, 0)

  /** Part two's aim follows exactly the depth of part one, so from the
      origin the final aim of part two is the final depth of part one, and
      the two parts end at the same horizontal position. */
  lemma PartsAgree(cmds: seq<Command>)
    ensures ProcessCommandPart2(Origin, cmds).aim == ProcessCommand(Origin, cmds).depth
    ensures ProcessCommandPart2(Origin, cmds).horizontal == ProcessCommand(Origin, cmds).horizontal
  {
  }

  /** From the origin, part two's depth weighs every Forward movement by
      part one's depth after the commands before it. */
  lemma {:induction false} Part2DepthFromPart1(cmds: seq<Command>)
    ensures ProcessCommandPart2(Origin, cmds).depth ==
      AimedDepth(0, cmds)
    ensures |cmds| > 0 && cmds[|cmds| - 1].direction == Forward ==>
      AimedDepth(0, cmds) ==
        AimedDepth(0, cmds[..|cmds| - 1]) +
        ProcessCommand(Origin, cmds[..|cmds| - 1]).depth * cmds[|cmds| - 1].movement
  {
    ProcessCommandPart2Depth(Origin, cmds);
  }
}
