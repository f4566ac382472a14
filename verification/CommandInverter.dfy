/**
 * Text commands and the commands that undo them. Commands take effect on the text as the
 * collaboration layer's slices do; a move names both its positions in the text before the move.
 */
module CommandInverter {
  import opened OperationalTransform
  import opened Options
  import opened Slices

  datatype Command =
    | InsertText(position: nat, text: string)
    | DeleteText(position: nat, length: nat, oldText: Option<string>)
    | ReplaceText(startPosition: nat, endPosition: nat, newText: string, replaced: string)
    | MoveText(sourcePosition: int, targetPosition: int, length: nat)
    | Custom(name: string)

  // UndoOf is the type made up for a command whose inverse has no type of its own.
  datatype CommandType =
    | INSERT_TEXT | DELETE_TEXT | REPLACE_TEXT | MOVE_TEXT
    | CustomType(name: string)
    | UndoOf(of: CommandType)

  datatype Error =
    | MissingOldText | NotInvertible(name: string) | BadMove
    | Unregistered(commandType: CommandType) | WrongHandler(commandType: CommandType)

  // ---- What a command does to a document's text ----

  predicate Movable(n: nat, source: int, target: int, length: nat) {
    0 <= source && source + length <= n && 0 <= target <= n && !(source < target < source + length)
  }

  function Moved(doc: string, source: nat, target: nat, length: nat): string
    requires Movable(|doc|, source, target, length)
  {
    if target <= source
    then doc[..target] + doc[source..source + length] + doc[target..source] + doc[source + length..]
    else doc[..source] + doc[source + length..target] + doc[source..source + length] + doc[target..]
  }

  // Custom commands leave the text alone; a move out of the text, or into itself, is refused.
  function Execute(doc: string, c: Command): Result<string, Error> {
    match c
    case InsertText(p, s) => Ok(Take(doc, p) + s + Drop(doc, p))
    case DeleteText(p, n, _) => Ok(Take(doc, p) + Drop(doc, p + n))
    case ReplaceText(start, end, s, _) => Ok(Take(doc, start) + s + Drop(doc, end))
    case MoveText(s, t, n) => if Movable(|doc|, s, t, n) then Ok(Moved(doc, s, t, n)) else Err(BadMove)
    case Custom(_) => Ok(doc)
  }

  // ---- Inversion ----

  predicate CanUndo(c: Command) { !c.Custom? }

  function InvertMoveText(c: Command): Command
    requires c.MoveText?
  {
    if c.sourcePosition < c.targetPosition
    then MoveText(c.targetPosition - c.length, c.sourcePosition, c.length)
    else MoveText(c.targetPosition, c.sourcePosition + c.length, c.length)
  }

  function Invert(c: Command): Result<Command, Error> {
    match c
    case InsertText(p, s) => Ok(DeleteText(p, |s|, None))
    case DeleteText(p, _, Some(gone)) => Ok(InsertText(p, gone))
    case DeleteText(_, _, None) => Err(MissingOldText)
    case ReplaceText(start, _, s, gone) => Ok(ReplaceText(start, start + |s|, gone, ""))
    case MoveText(_, _, _) => Ok(InvertMoveText(c))
    case Custom(name) => Err(NotInvertible(name))
  }

  // The text after the command and then its inverse, when both can be had.
  function ThereAndBack(doc: string, c: Command): Result<string, Error> {
    match Execute(doc, c)
    case Err(e) => Err(e)
    case Ok(changed) =>
      match Invert(c)
      case Err(e) => Err(e)
      case Ok(inverse) => Execute(changed, inverse)
  }

  /** Undoing an insertion restores the text exactly when the insertion was made inside the text, or was empty. */
  lemma {:induction false} InsertUndoneIff(doc: string, p: nat, s: string)
    ensures ThereAndBack(doc, InsertText(p, s)) == Ok(doc) <==> p <= |doc| || s == ""
  {
    var changed := Take(doc, p) + s + Drop(doc, p);
    if p <= |doc| {
      assert changed[..p] == doc[..p] && changed[p + |s|..] == doc[p..];
      assert doc[..p] + doc[p..] == doc;
    } else {
      assert changed == doc + s;
      assert s != "" ==> |Take(changed, p)| > |doc|;
      assert s == "" ==> Take(changed, p) + Drop(changed, p) == doc;
    }
  }

  /** Undoing a deletion restores the text exactly when the command carries the text it deleted. */
  lemma {:induction false} DeleteUndoneIff(doc: string, p: nat, n: nat, gone: string)
    ensures ThereAndBack(doc, DeleteText(p, n, Some(gone))) == Ok(doc) <==> gone == Take(Drop(doc, p), n)
    ensures ThereAndBack(doc, DeleteText(p, n, None)) == Err(MissingOldText)
  {
    var changed := Take(doc, p) + Drop(doc, p + n);
    if p <= |doc| {
      var cut := Take(Drop(doc, p), n);
      assert changed[..p] == doc[..p] && changed[p..] == Drop(doc, p + n);
      assert doc == doc[..p] + cut + Drop(doc, p + n);
      PutBack(doc[..p], cut, Drop(doc, p + n), gone);
    } else {
      assert changed == doc;
      assert |doc + gone| == |doc| ==> gone == "";
    }
  }

  /**
   * Undoing a replacement restores the text exactly when the command carries the text of a range that
   * lies in the document, or when it replaced nothing beyond the document's end by nothing.
   */
  lemma {:induction false} ReplaceUndoneIff(doc: string, start: nat, end: nat, s: string, gone: string)
    ensures ThereAndBack(doc, ReplaceText(start, end, s, gone)) == Ok(doc) <==>
              if start <= |doc| then start <= end && gone == Take(Drop(doc, start), end - start)
              else |doc| <= end && s == "" && gone == ""
  {
    if start <= |doc| {
      ReplaceInsideIff(doc, start, end, s, gone);
    } else {
      ReplaceBeyondIff(doc, start, end, s, gone);
    }
  }

  lemma {:induction false} ReplacedBack(doc: string, start: nat, end: nat, s: string, gone: string)
    requires start <= |doc|
    ensures ThereAndBack(doc, ReplaceText(start, end, s, gone)) == Ok(doc[..start] + gone + Drop(doc, end))
  {
    var changed := Take(doc, start) + s + Drop(doc, end);
    assert changed[..start] == doc[..start] && changed[start + |s|..] == Drop(doc, end);
  }

  lemma {:induction false} BackIsSameIff(doc: string, start: nat, end: nat, gone: string)
    requires start <= |doc|
    ensures doc[..start] + gone + Drop(doc, end) == doc <==> start <= end && gone == Take(Drop(doc, start), end - start)
  {
    if start <= end {
      var cut := Take(Drop(doc, start), end - start);
      assert doc == doc[..start] + cut + Drop(doc, end);
      PutBack(doc[..start], cut, Drop(doc, end), gone);
    } else {
      assert |doc[..start] + gone + Drop(doc, end)| > |doc|;
    }
  }

  lemma {:induction false} ReplaceInsideIff(doc: string, start: nat, end: nat, s: string, gone: string)
    requires start <= |doc|
    ensures ThereAndBack(doc, ReplaceText(start, end, s, gone)) == Ok(doc) <==>
              start <= end && gone == Take(Drop(doc, start), end - start)
  {
    ReplacedBack(doc, start, end, s, gone);
    BackIsSameIff(doc, start, end, gone);
  }

  lemma {:induction false} ReplaceBeyondIff(doc: string, start: nat, end: nat, s: string, gone: string)
    requires start > |doc|
    ensures ThereAndBack(doc, ReplaceText(start, end, s, gone)) == Ok(doc) <==> |doc| <= end && s == "" && gone == ""
  {
    var changed := Take(doc, start) + s + Drop(doc, end);
    var restored := Take(changed, start) + gone + Drop(changed, start + |s|);
    if |doc| <= end {
      assert changed == doc + s;
      assert s != "" ==> |restored| > |doc|;
      assert s == "" ==> restored == doc + gone;
      assert |doc + gone| == |doc| ==> gone == "";
      assert gone == "" ==> doc + gone == doc;
    } else {
      assert |Take(changed, start)| > |doc|;
    }
  }

  /** Undoing a move restores the text, whichever way the text was moved. */
  lemma {:induction false} MoveUndone(doc: string, source: int, target: int, length: nat)
    requires Movable(|doc|, source, target, length)
    ensures ThereAndBack(doc, MoveText(source, target, length)) == Ok(doc)
  {
    if source < target {
      var a, b, c, d := doc[..source], doc[source..source + length], doc[source + length..target], doc[target..];
      FourPieces(doc, source, source + length, target);
      assert Moved(doc, source, target, length) == a + c + b + d;
      MovedBack(a, b, c, d);
      assert target - length == |a| + |c|;
    } else {
      var a, b, c, d := doc[..target], doc[target..source], doc[source..source + length], doc[source + length..];
      FourPieces(doc, target, source, source + length);
      assert Moved(doc, source, target, length) == a + c + b + d;
      MovedForward(a, b, c, d);
      assert source + length == |a| + |c| + |b|;
    }
  }

  lemma {:induction false} FourPieces(doc: string, i: nat, j: nat, k: nat)
    requires i <= j <= k <= |doc|
    ensures doc == doc[..i] + doc[i..j] + doc[j..k] + doc[k..]
  {
    assert doc[..k] == doc[..i] + doc[i..j] + doc[j..k];
  }

  lemma {:induction false} MovedBack(a: string, b: string, c: string, d: string)
    ensures Moved(a + c + b + d, |a| + |c|, |a|, |b|) == a + b + c + d
  {
    var t := a + c + b + d;
    assert t[..|a|] == a && t[|a| + |c|..|a| + |c| + |b|] == b && t[|a|..|a| + |c|] == c && t[|a| + |c| + |b|..] == d;
  }

  lemma {:induction false} MovedForward(a: string, b: string, c: string, d: string)
    ensures Movable(|a + c + b + d|, |a|, |a| + |c| + |b|, |c|)
    ensures Moved(a + c + b + d, |a|, |a| + |c| + |b|, |c|) == a + b + c + d
  {
    var t := a + c + b + d;
    assert t[..|a|] == a && t[|a|..|a| + |c|] == c && t[|a| + |c|..|a| + |c| + |b|] == b && t[|a| + |c| + |b|..] == d;
    if b == "" {
      assert c == "" ==> t[|a|..|a|] == "";
    }
  }

  /** Inverting a move twice gives the move back exactly when its target is not strictly inside the text it moves. */
  lemma {:induction false} MoveInvertedTwiceIff(c: Command)
    requires c.MoveText?
    ensures InvertMoveText(InvertMoveText(c)) == c <==>
              !(c.sourcePosition < c.targetPosition < c.sourcePosition + c.length)
  {
  }

  // ---- What the commands and their inverses are ----

  function AsEdit(c: Command): Operation
    requires c.InsertText? || c.DeleteText? || (c.ReplaceText? && c.startPosition <= c.endPosition)
  {
    match c
    case InsertText(p, s) => Insert(p, s)
    case DeleteText(p, n, _) => Delete(p, n)
    case ReplaceText(start, end, s, _) => Replace(start, end - start, s)
  }

  /** The commands do to a text what the edits of the collaboration layer do. */
  lemma {:induction false} ExecutesAsEdit(doc: string, c: Command)
    requires c.InsertText? || c.DeleteText? || (c.ReplaceText? && c.startPosition <= c.endPosition)
    ensures Execute(doc, c) == Ok(Apply(doc, AsEdit(c)))
  {
  }

  /** A move is refused exactly when it reaches out of the text or aims strictly inside what it moves. */
  lemma {:induction false} MoveRefusedIff(doc: string, source: int, target: int, length: nat)
    ensures var ran := Execute(doc, MoveText(source, target, length));
            && (ran == Err(BadMove) <==>
                || source < 0 || target < 0 || |doc| < source + length || |doc| < target
                || (source < target && target < source + length))
            && (ran.Ok? || ran == Err(BadMove))
  {
  }

  /** A move takes a stretch out and puts it in at its target, as far as the stretch lay before the target. */
  lemma {:induction false} MoveIsDeleteThenInsert(doc: string, source: nat, target: nat, length: nat)
    requires Movable(|doc|, source, target, length)
    ensures Execute(doc, MoveText(source, target, length))
         == Ok(Apply(Apply(doc, Delete(source, length)),
                     Insert(PastDeletion(target, source, length), doc[source..source + length])))
  {
    var cut, span, at := doc[..source] + doc[source + length..], doc[source..source + length],
                         if target <= source then target else target - length;
    assert Apply(doc, Delete(source, length)) == cut && at == PastDeletion(target, source, length);
    MovedSplits(doc, source, target, length, cut, span, at);
    assert Apply(cut, Insert(at, span)) == cut[..at] + span + cut[at..];
  }

  lemma {:induction false} MovedSplits(doc: string, source: nat, target: nat, length: nat, cut: string, span: string,
                                       at: nat)
    requires Movable(|doc|, source, target, length) && cut == doc[..source] + doc[source + length..]
    requires span == doc[source..source + length] && at == if target <= source then target else target - length
    ensures at <= |cut| && Moved(doc, source, target, length) == cut[..at] + span + cut[at..]
  {
    if target <= source {
      assert cut[..at] == doc[..target] && cut[at..] == doc[target..source] + doc[source + length..];
      assert doc[..target] + span + (doc[target..source] + doc[source + length..])
          == doc[..target] + span + doc[target..source] + doc[source + length..];
    } else {
      assert cut[..at] == doc[..source] + doc[source + length..target] && cut[at..] == doc[target..];
    }
  }

  /**
   * Inverting twice: an insertion's inverse does not know the text and has no inverse itself; a deletion
   * becomes one that no longer knows its text; a replacement becomes one by nothing, over as much text as it
   * replaced.
   */
  lemma {:induction false} InvertedTwice(c: Command)
    ensures c.InsertText? ==>
              Invert(c).Ok? && Invert(Invert(c).value) == Err(MissingOldText)
    ensures c.DeleteText? && c.oldText.Some? ==>
              Invert(c).Ok? && Invert(Invert(c).value) == Ok(DeleteText(c.position, |c.oldText.value|, None))
    ensures c.ReplaceText? ==>
              Invert(c).Ok? && Invert(Invert(c).value)
                == Ok(ReplaceText(c.startPosition, c.startPosition + |c.replaced|, "", ""))
    ensures c.Custom? ==> Invert(c) == Err(NotInvertible(c.name))
  {
  }

  /** A move's inverse takes the text from where the move puts it, and as much of it. */
  lemma {:induction false} MoveInverseStarts(c: Command)
    requires c.MoveText?
    ensures var back := InvertMoveText(c);
            && back.MoveText? && back.length == c.length
            && back.sourcePosition == c.targetPosition - (if c.sourcePosition < c.targetPosition then c.length else 0)
            && back.targetPosition == c.sourcePosition + (if c.sourcePosition < c.targetPosition then 0 else c.length)
  {
  }

  // ---- The type under which an inverse is executed ----

  function TypeOf(c: Command): CommandType {
    match c
    case InsertText(_, _) => INSERT_TEXT
    case DeleteText(_, _, _) => DELETE_TEXT
    case MoveText(_, _, _) => MOVE_TEXT
    case ReplaceText(_, _, _, _) => REPLACE_TEXT
    case Custom(name) => CustomType(name)
  }

  // The map of inverse types has no entry for a replacement.
  function InverseType(c: Command): CommandType {
    match c
    case InsertText(_, _) => DELETE_TEXT
    case DeleteText(_, _, _) => INSERT_TEXT
    case MoveText(_, _, _) => MOVE_TEXT
    case _ => UndoOf(TypeOf(c))
  }

  predicate Registered(t: CommandType) { t.INSERT_TEXT? || t.DELETE_TEXT? || t.REPLACE_TEXT? || t.MOVE_TEXT? }

  // The handler is found by the type it is registered under, and cannot make use of another type's command.
  function ExecuteAs(commandType: CommandType, doc: string, c: Command): Result<string, Error> {
    if !Registered(commandType) then Err(Unregistered(commandType))
    else if TypeOf(c) != commandType then Err(WrongHandler(commandType))
    else Execute(doc, c)
  }

  /** Whenever a command's inverse can be had and its type has a handler, it is the handler of that inverse. */
  lemma {:induction false} InverseFindsItsHandler(c: Command)
    ensures Registered(InverseType(c)) && Invert(c).Ok? ==> TypeOf(Invert(c).value) == InverseType(c)
    ensures Registered(InverseType(c)) <==> c.InsertText? || c.DeleteText? || c.MoveText?
    ensures !Registered(InverseType(c)) ==> InverseType(c) == UndoOf(TypeOf(c))
  {
  }
}
