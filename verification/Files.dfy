/** The file an installer edits, and replacing it atomically
    (scripts/managed_block.py, `read_lines` and `write_lines`). */
module Files {
  import opened Lines
  import opened Text

  /** Decoded text, or bytes that are not UTF-8. */
  datatype Content = Utf8(text: string) | NotUtf8(raw: seq<bv8>)

  datatype File = File(content: Content, mode: bv12)

  /** What the path names. */
  datatype Node = Missing | Link(target: string) | Regular(file: File)

  /** A directory as a kill would leave it: the path, and the temporary files beside it. */
  datatype Dir = Dir(target: Node, temps: map<string, File>)

  /** `write_lines`'s outcome: `Raised` is any exception raised while it was at work. */
  datatype Outcome = Done | RefusedLink | Raised

  /** The step that raises, if one does. */
  datatype Fault = NoFault | AtTemp | AtWrite(after: nat) | AtSync | AtChmod | AtReplace

  /** Everything about a write the installer does not decide: the temporary file's fresh
      name, how much has reached the file at each moment, what fails, and the umask. */
  datatype Circumstances = Circumstances(temp: string, cuts: seq<nat>, fault: Fault, umask: bv12)

  /** Permission bits of the replacement: the old file's, or an ordinary new file's. */
  function NewMode(node: Node, umask: bv12): bv12 {
    if node.Regular? then node.file.mode & 0x1FF else 0x1B6 & !umask
  }

  function Written(node: Node, lines: seq<string>, nl: string, umask: bv12): Node {
    Regular(File(Utf8(WriteText(lines, nl)), NewMode(node, umask)))
  }

  ghost function TextOf(node: Node): Option<string> {
    match node
    case Regular(File(Utf8(text), _)) => Some(text)
    case _ => None
  }

  /** Permission bits and line ending of a decodable file. */
  ghost function EndingAndMode(node: Node): Option<(string, bv12)> {
    match node
    case Regular(File(Utf8(text), mode)) => Some((NewlineOf(text), mode & 0x1FF))
    case _ => None
  }

  /** Replacing a file keeps its mode exactly when its three bits above the permission bits
      (set-user-id, set-group-id and sticky) are clear. */
  lemma ModeKeptIff(node: Node, lines: seq<string>, nl: string, umask: bv12)
    requires node.Regular?
    ensures Written(node, lines, nl, umask).file.mode == node.file.mode <==> node.file.mode & 0xE00 == 0
  {
    ModeBits(node.file.mode);
  }

  lemma ModeBits(mode: bv12)
    ensures mode & 0x1FF == mode <==> mode & 0xE00 == 0
  {
  }

  /** A file just written keeps its mode when it is replaced again. */
  lemma ModeSettles(node: Node, lines: seq<string>, nl: string, umask: bv12, umask': bv12)
    ensures NewMode(Written(node, lines, nl, umask), umask') == NewMode(node, umask)
  {
  }

  /** What a run does: leave the file alone and return a code, or write and return 0. */
  datatype Verdict = Exit(code: nat) | Write(lines: seq<string>, nl: string)

  /** What may be in the temporary file: some of the text, for its owner alone, until all of
      it has the mode of the file it replaces. */
  ghost predicate Temporary(file: File, text: string, mode: bv12) {
    && file.content.Utf8? && file.content.text <= text
    && (file.mode == 0x180 || (file.mode == mode && file.content.text == text))
  }

  /** Since `start` the path has not changed, nor anything beside it but the temporary file. */
  ghost predicate Untouched(h: seq<Dir>, start: nat, before: Dir, temp: string, text: string, mode: bv12) {
    && start <= |h|
    && forall i | start <= i < |h| ::
         && h[i].target == before.target && h[i].temps - {temp} == before.temps
         && (temp in h[i].temps ==> Temporary(h[i].temps[temp], text, mode))
  }

  lemma UntouchedIs(h: seq<Dir>, start: nat, before: Dir, temp: string, text: string, mode: bv12)
    requires Untouched(h, start, before, temp, text, mode)
    ensures start <= |h|
    ensures forall i | start <= i < |h| :: h[i].target == before.target && h[i].temps - {temp} == before.temps
    ensures forall i | start <= i < |h| && temp in h[i].temps :: Temporary(h[i].temps[temp], text, mode)
  {
    hide Temporary;
  }

  lemma NothingYet(h: seq<Dir>, start: nat, before: Dir, temp: string, text: string, mode: bv12)
    requires start == |h|
    ensures Untouched(h, start, before, temp, text, mode)
  {
    hide Temporary;
  }

  lemma HistoryStep(h: seq<Dir>, d: Dir, start: nat, before: Dir, temp: string, text: string, mode: bv12)
    requires Untouched(h, start, before, temp, text, mode)
    requires d.target == before.target && d.temps - {temp} == before.temps
    requires temp in d.temps ==> Temporary(d.temps[temp], text, mode)
    ensures Untouched(h + [d], start, before, temp, text, mode)
  {
    hide Temporary;
  }

  lemma PrivatePiece(piece: string, text: string, mode: bv12)
    requires piece <= text
    ensures Temporary(File(Utf8(piece), 0x180), text, mode)
  {
  }

  lemma WholeFile(text: string, mode: bv12)
    ensures Temporary(File(Utf8(text), mode), text, mode)
  {
  }

  class Directory {
    var target: Node
    var temps: map<string, File>
    /** Every state the directory has been in: a kill leaves one of them. */
    ghost var history: seq<Dir>

    constructor (target: Node, temps: map<string, File>)
      ensures this.target == target && this.temps == temps && history == []
    {
      this.target := target;
      this.temps := temps;
      history := [];
    }

    ghost function Now(): Dir
      reads this
    {
      Dir(target, temps)
    }

    method SetTemp(name: string, file: File)
      modifies this
      ensures target == old(target) && temps == old(temps)[name := file]
      ensures history == old(history) + [Now()]
    {
      temps := temps[name := file];
      history := history + [Now()];
    }

    method Unlink(name: string)
      modifies this
      ensures target == old(target) && temps == old(temps) - {name}
      ensures history == old(history) + [Now()]
    {
      temps := temps - {name};
      history := history + [Now()];
    }

    /** Either of these while the path is as it was. */
    method KeepTemp(name: string, file: File, ghost start: nat, ghost before: Dir, ghost text: string, ghost mode: bv12)
      requires Untouched(history, start, before, name, text, mode) && Temporary(file, text, mode)
      requires target == before.target && temps - {name} == before.temps
      modifies this
      ensures target == old(target) && temps == old(temps)[name := file] && temps - {name} == before.temps
      ensures Untouched(history, start, before, name, text, mode) && old(history) <= history
    {
      hide Untouched, Temporary;
      ghost var was := history;
      SetTemp(name, file);
      HistoryStep(was, Now(), start, before, name, text, mode);
    }

    method DropTemp(name: string, ghost start: nat, ghost before: Dir, ghost text: string, ghost mode: bv12)
      requires Untouched(history, start, before, name, text, mode)
      requires target == before.target && temps - {name} == before.temps
      modifies this
      ensures target == old(target) && temps == before.temps
      ensures Untouched(history, start, before, name, text, mode) && old(history) <= history
    {
      hide Untouched, Temporary;
      ghost var was := history;
      Unlink(name);
      HistoryStep(was, Now(), start, before, name, text, mode);
    }

    /** `os.replace`: the path and the temporary file change in one step. */
    method Replace(name: string)
      requires name in temps
      modifies this
      ensures target == Regular(old(temps)[name]) && temps == old(temps) - {name}
      ensures history == old(history) + [Now()]
    {
      target := Regular(temps[name]);
      temps := temps - {name};
      history := history + [Now()];
    }

    /** Replace the path by these lines. Until the last step the path is the old node with
        its old mode; the last step makes it the whole new file; nothing else is ever there.
        However the call ends, no temporary file of its own is left. */
    method WriteLines(lines: seq<string>, nl: string, how: Circumstances) returns (r: Outcome)
      requires how.temp !in temps
      modifies this
      ensures r == RefusedLink <==> old(target).Link?
      ensures how.fault == NoFault && !old(target).Link? ==> r == Done
      ensures temps == old(temps)
      ensures target == if r == Done then Written(old(target), lines, nl, how.umask) else old(target)
      ensures old(history) <= history
      ensures forall i | |old(history)| <= i < |history| && how.temp in history[i].temps ::
                Temporary(history[i].temps[how.temp], WriteText(lines, nl), NewMode(old(target), how.umask))
      ensures forall i | |old(history)| <= i < |history| ::
                && history[i].temps - {how.temp} == old(temps)
                && (history[i].target == old(target)
                    || (r == Done && i == |history| - 1 && history[i].target == target))
    {
      hide WriteText, NewMode, Untouched, Temporary;
      ghost var before, start := Now(), |history|;
      if target.Link? {
        return RefusedLink;
      }
      var mode := NewMode(target, how.umask);
      if how.fault == AtTemp {
        return Raised;
      }
      var text := WriteText(lines, nl);
      NothingYet(history, start, before, how.temp, text, mode);
      PrivatePiece("", text, mode);
      KeepTemp(how.temp, File(Utf8(""), 0x180), start, before, text, mode);
      var i := 0;
      while i < |how.cuts| && how.fault != AtWrite(i)
        invariant 0 <= i <= |how.cuts|
        invariant target == before.target && how.temp in temps && temps - {how.temp} == before.temps
        invariant old(history) <= history && Untouched(history, start, before, how.temp, text, mode)
      {
        var n := if how.cuts[i] <= |text| then how.cuts[i] else |text|;
        PrivatePiece(text[..n], text, mode);
        KeepTemp(how.temp, File(Utf8(text[..n]), 0x180), start, before, text, mode);
        i := i + 1;
      }
      if !how.fault.AtWrite? {
        PrivatePiece(text, text, mode);
        KeepTemp(how.temp, File(Utf8(text), 0x180), start, before, text, mode);
        if how.fault != AtSync && how.fault != AtChmod {
          WholeFile(text, mode);
          KeepTemp(how.temp, File(Utf8(text), mode), start, before, text, mode);
        }
        if how.fault == NoFault {
          UntouchedIs(history, start, before, how.temp, text, mode);
          Replace(how.temp);
          return Done;
        }
      }
      DropTemp(how.temp, start, before, text, mode);
      r := Raised;
      UntouchedIs(history, start, before, how.temp, text, mode);
    }
  }
}
