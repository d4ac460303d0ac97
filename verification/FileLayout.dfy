/** Files written by many processes: writes at offsets, in any order. */
module FileLayout {
  import opened ByteCodes

  type File = nat -> byte

  datatype Write = Write(pos: nat, bytes: seq<byte>)

  function Apply(f: File, w: Write): File {
    (x: nat) => if w.pos <= x < w.pos + |w.bytes| then w.bytes[x - w.pos] else f(x)
  }

  function ApplyAll(f: File, ws: seq<Write>): File {
    if |ws| == 0 then f else Apply(ApplyAll(f, ws[..|ws| - 1]), ws[|ws| - 1])
  }

  function ReadAt(f: File, pos: nat, len: nat): (r: seq<byte>)
    ensures |r| == len && forall i :: 0 <= i < len ==> r[i] == f(pos + i)
  { seq(len, i requires 0 <= i < len => f(pos + i)) }

  /** A write puts a part of the intended content where it belongs. */
  ghost predicate PartOf(w: Write, content: seq<byte>) {
    w.pos + |w.bytes| <= |content| && content[w.pos..w.pos + |w.bytes|] == w.bytes
  }

  ghost predicate Covered(x: nat, ws: seq<Write>) {
    exists k :: 0 <= k < |ws| && ws[k].pos <= x < ws[k].pos + |ws[k].bytes|
  }

  lemma {:induction false} WrittenByte(f: File, ws: seq<Write>, content: seq<byte>, x: nat)
    requires (forall k :: 0 <= k < |ws| ==> PartOf(ws[k], content)) && Covered(x, ws)
    ensures x < |content| && ApplyAll(f, ws)(x) == content[x]
  {
    var n := |ws| - 1;
    if ws[n].pos <= x < ws[n].pos + |ws[n].bytes| {
      assert PartOf(ws[n], content);
      assert content[ws[n].pos..ws[n].pos + |ws[n].bytes|][x - ws[n].pos] == content[x];
    } else {
      var k :| 0 <= k < |ws| && ws[k].pos <= x < ws[k].pos + |ws[k].bytes|;
      assert ws[..n][k] == ws[k];
      WrittenByte(f, ws[..n], content, x);
    }
  }

  /** Whatever the order, writes that agree with a content and cover it produce it. */
  lemma WritesProduce(f: File, ws: seq<Write>, content: seq<byte>)
    requires forall k :: 0 <= k < |ws| ==> PartOf(ws[k], content)
    requires forall x :: 0 <= x < |content| ==> Covered(x, ws)
    ensures ReadAt(ApplyAll(f, ws), 0, |content|) == content
  {
    var r := ReadAt(ApplyAll(f, ws), 0, |content|);
    forall x | 0 <= x < |content| ensures r[x] == content[x] { WrittenByte(f, ws, content, x); }
  }

  lemma ReadPart(f: File, content: seq<byte>, pos: nat, len: nat)
    requires pos + len <= |content| && ReadAt(f, 0, |content|) == content
    ensures ReadAt(f, pos, len) == content[pos..pos + len]
  {
    forall i | 0 <= i < len ensures ReadAt(f, pos, len)[i] == content[pos..pos + len][i] {
      assert ReadAt(f, 0, |content|)[pos + i] == f(0 + (pos + i));
    }
  }
}
