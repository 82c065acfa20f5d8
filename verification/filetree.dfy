/**
 * Abstract file trees. The same datatype describes a local directory (what
 * `os.listdir`, `os.path.isdir`, `os.path.getsize` and `open` observe) and a
 * remote directory on the FTP server (what NLST, LIST, SIZE and RETR observe).
 */
module FileTree {
  import opened Wrappers

  newtype byte = x: int | 0 <= x < 256

  /** File content. */
  type Data = seq<byte>

  /** A path as a sequence of segments; joining is appending a segment. */
  type Path = seq<string>

  /** A hex digest of file content (what `hexdigest()` returns). */
  type Digest = string

  datatype Node = File(data: Data) | Dir(children: seq<Entry>)

  /** One named entry of a directory. */
  datatype Entry = Entry(name: string, node: Node)

  /** Number of nodes in a tree; used as a termination measure. */
  function Size(n: Node): (s: nat)
    ensures s >= 1
  {
    match n
    case File(_) => 1
    case Dir(cs) => 1 + SizeSeq(cs)
  }

  function SizeSeq(cs: seq<Entry>): nat
  {
    if |cs| == 0 then 0 else Size(cs[0].node) + SizeSeq(cs[1..])
  }

  /** The names of a listing, in listing order (what NLST or `os.listdir` returns). */
  function Names(es: seq<Entry>): (ns: seq<string>)
    ensures |ns| == |es|
    ensures forall i :: 0 <= i < |es| ==> ns[i] == es[i].name
  {
    seq(|es|, i requires 0 <= i < |es| => es[i].name)
  }

  /** The node listed under `name`, if any. */
  function Lookup(es: seq<Entry>, name: string): (r: Option<Node>)
    ensures r.None? <==> name !in Names(es)
    ensures r.Some? ==> Entry(name, r.value) in es
  {
    if |es| == 0 then None
    else if es[0].name == name then Some(es[0].node)
    else Lookup(es[1..], name)
  }

  /** No two entries of a listing share a name, as in any real directory. */
  predicate DistinctNames(es: seq<Entry>)
  {
    forall i, j :: 0 <= i < j < |es| ==> es[i].name != es[j].name
  }

  /** A name the Unix `ls -l` style listing can carry unambiguously. */
  predicate PlainName(name: string)
  {
    ':' !in name && '\n' !in name
  }

  predicate PlainNames(es: seq<Entry>)
  {
    forall i :: 0 <= i < |es| ==> PlainName(es[i].name)
  }

  /** Every directory of the tree has distinct, plain names. */
  predicate WellFormed(n: Node)
    decreases Size(n), 1
  {
    match n
    case File(_) => true
    case Dir(cs) => WellFormedEntries(cs)
  }

  predicate WellFormedEntries(cs: seq<Entry>)
    decreases SizeSeq(cs), 2
  {
    && DistinctNames(cs)
    && PlainNames(cs)
    && forall i :: 0 <= i < |cs| ==> (SizeBelow(cs, i); WellFormed(cs[i].node))
  }

  /** A child's size is bounded by its listing's size. */
  lemma {:induction false} SizeBelow(cs: seq<Entry>, i: nat)
    requires i < |cs|
    ensures Size(cs[i].node) <= SizeSeq(cs)
    decreases i
  {
    if i > 0 {
      SizeBelow(cs[1..], i - 1);
      assert cs[1..][i - 1] == cs[i];
    }
  }
}
