/** Physical memory as 4 KiB frames of 512 words.  Frame number f holds the bytes from 4096 * f. */
module PhysicalMemory {
  import opened Words

  type Index = i: nat | i < 512

  type Frame = f: seq<Word> | |f| == 512 witness seq(512, _ => 0)

  type Memory = seq<Frame>

  function Zeros(): (f: Frame)
    ensures forall i: Index :: f[i] == 0
  {
    seq(512, _ => 0)
  }

  /** Reads a word; addresses without memory behind them read as zero. */
  function Load(mem: Memory, f: nat, i: Index): Word {
    if f < |mem| then mem[f][i] else 0
  }

  /** Writes a word; addresses without memory behind them ignore the write. */
  function Store(mem: Memory, f: nat, i: Index, w: Word): Memory {
    if f < |mem| then mem[f := mem[f][i := w]] else mem
  }

  /** Replaces a whole frame. */
  function StoreFrame(mem: Memory, f: nat, content: Frame): Memory {
    if f < |mem| then mem[f := content] else mem
  }
}
