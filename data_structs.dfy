/**
 * The records passed between the stages of the pipeline: a batch of k-mers
 * for a worker, a bundle of raw characters from a reader, and the queue of
 * k-mer batches shared by the producer and the workers.
 */
module DataStructs {

  /** `struct KmerBlock`: the k-mers of one super-mer, handed to a worker. */
  class KmerBlock {
    var kmers: seq<string>

    /** `KmerBlock(expectedKmers)` only reserves capacity; the list starts empty. */
    constructor (expectedKmers: nat)
      ensures kmers == []
    {
      kmers := [];
    }

    /** The default constructor `KmerBlock()`. */
    constructor Empty()
      ensures kmers == []
    {
      kmers := [];
    }
  }

  /** `struct FastBundle`: a block of raw characters read from a file. */
  class FastBundle {
    var data: seq<char>
    var finalized: bool

    /** `FastBundle(size)` only reserves capacity, whatever `size` is. */
    constructor (size: nat)
      ensures data == [] && !finalized
    {
      data := [];
      finalized := false;
    }

    /** Appends the first `n` characters of `buf` to the bundle. */
    method AddBlock(buf: seq<char>, n: nat)
      requires n <= |buf|
      modifies this
      ensures data == old(data) + buf[..n]
      ensures |data| == old(|data|) + n
      ensures finalized == old(finalized)
    {
      data := data + buf[..n];
    }

    method Finalize()
      modifies this
      ensures finalized
      ensures data == old(data)
    {
      finalized := true;
    }
  }

  /** The three steps every reader takes to emit a bundle: construct it,
      add the first `n` characters of `buf`, finalize it. */
  method NewBundle(size: nat, buf: seq<char>, n: nat) returns (bundle: FastBundle)
    requires n <= |buf|
    ensures fresh(bundle)
    ensures bundle.data == buf[..n] && bundle.finalized
  {
    bundle := new FastBundle(size);
    bundle.AddBlock(buf, n);
    bundle.Finalize();
  }

  /** The `std::queue<KmerBlock*>` between the producer and the workers. */
  class KmerQueue {
    var items: seq<KmerBlock>

    constructor ()
      ensures items == []
    {
      items := [];
    }

    /** `push`: adds a block at the back. */
    method Push(b: KmerBlock)
      modifies this
      ensures items == old(items) + [b]
    {
      items := items + [b];
    }

    /** `front` followed by `pop`: removes and returns the oldest block. */
    method Pop() returns (b: KmerBlock)
      requires items != []
      modifies this
      ensures b == old(items)[0]
      ensures items == old(items)[1..]
    {
      b := items[0];
      items := items[1..];
    }
  }
}
