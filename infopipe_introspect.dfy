/** InfoPipe's Introspect handler: the introspection XML document is read
    from its file once, chunk by chunk, and cached on the method handler
    context for every later call. */
module Introspection {
  import opened Common

  /** The handler reads one memory page at a time. */
  const ChunkSize: nat := 4096

  /** What opening the XML file yields: the `errno` of a failed `fopen`,
      or a stream over the file's contents. */
  datatype XmlFile = Missing(errno: int) | Contents(data: string)

  /** The handler's outcome: a method return carrying the document, or a
      bare error number and no reply. */
  datatype IntrospectReply = Document(xml: string) | Error(errno: int)

  function Min(a: nat, b: nat): nat { if a <= b then a else b }

  /** `fread` of one chunk from a stream positioned at `pos`: the next
      `ChunkSize` characters, or all that is left when fewer remain. */
  function ReadChunk(data: string, pos: nat): (r: string)
    requires pos <= |data|
    ensures |r| == Min(ChunkSize, |data| - pos)
    ensures r == data[pos..pos + |r|]
  {
    data[pos..pos + Min(ChunkSize, |data| - pos)]
  }

  /** The chunks successive reads from `pos` return, up to and including
      the first one shorter than `ChunkSize`. */
  function Chunks(data: string, pos: nat): (r: seq<string>)
    requires pos <= |data|
    ensures |r| > 0
    decreases |data| - pos
  {
    var chunk := ReadChunk(data, pos);
    if |chunk| < ChunkSize then [chunk] else [chunk] + Chunks(data, pos + |chunk|)
  }

  function Concat(chunks: seq<string>): string
  {
    if chunks == [] then [] else chunks[0] + Concat(chunks[1..])
  }

  /** Reading on from `pos` yields the rest of the stream, in
      `(|data| - pos) / ChunkSize + 1` chunks: every chunk but the last is
      full and the last one is short. */
  lemma {:induction false} ChunksConcatenate(data: string, pos: nat)
    requires pos <= |data|
    ensures Concat(Chunks(data, pos)) == data[pos..]
    ensures |Chunks(data, pos)| == (|data| - pos) / ChunkSize + 1
    ensures forall i :: 0 <= i < |Chunks(data, pos)| - 1 ==> |Chunks(data, pos)[i]| == ChunkSize
    ensures |Chunks(data, pos)[|Chunks(data, pos)| - 1]| < ChunkSize
    decreases |data| - pos
  {
    var chunk := ReadChunk(data, pos);
    if |chunk| == ChunkSize {
      var rest := Chunks(data, pos + ChunkSize);
      ChunksConcatenate(data, pos + ChunkSize);
      assert Chunks(data, pos) == [chunk] + rest;
      assert ([chunk] + rest)[1..] == rest;
      assert data[pos..] == chunk + data[pos + ChunkSize..];
      assert (|data| - pos) / ChunkSize == (|data| - pos - ChunkSize) / ChunkSize + 1;
    }
  }

  /** The do-while loop of `infp_introspect`: append chunks until one comes
      back shorter than `ChunkSize`. The whole stream is read, in
      `|data| / ChunkSize + 1` reads (a file whose size is a multiple of
      the chunk size costs one extra, empty read). */
  method ReadAll(data: string) returns (xml: string, chunkReads: nat)
    ensures xml == data
    ensures chunkReads == |data| / ChunkSize + 1
  {
    var chunk := ReadChunk(data, 0);
    xml := chunk;
    chunkReads := 1;
    while |chunk| == ChunkSize
      invariant |chunk| <= ChunkSize && |xml| <= |data|
      invariant xml == data[..|xml|]
      invariant |xml| == (chunkReads - 1) * ChunkSize + |chunk|
      invariant |chunk| < ChunkSize ==> |xml| == |data|
      decreases |data| - |xml| + |chunk|
    {
      chunk := ReadChunk(data, |xml|);
      xml := xml + chunk;
      chunkReads := chunkReads + 1;
    }
    assert xml == data[..|data|];
  }

  /** The method handler context of the InfoPipe connection; only the
      cached introspection document is modelled. */
  class MethodHandlerContext {
    var introspectionXml: Option<string>

    constructor()
      ensures introspectionXml == None
    {
      introspectionXml := None;
    }

    /** `infp_introspect`. A cached document is returned as it is, without
        touching the file. Otherwise a file that cannot be opened fails the
        call with its `errno` and leaves the cache empty, and a readable one
        is read completely, cached and returned. `chunkReads` counts the chunk
        reads this call made. */
    method Introspect(file: XmlFile) returns (reply: IntrospectReply, chunkReads: nat)
      modifies this
      ensures old(introspectionXml).Some? ==>
        reply == Document(old(introspectionXml).value) && introspectionXml == old(introspectionXml) && chunkReads == 0
      ensures old(introspectionXml).None? && file.Missing? ==>
        reply == Error(file.errno) && introspectionXml == None && chunkReads == 0
      ensures old(introspectionXml).None? && file.Contents? ==>
        reply == Document(file.data) && introspectionXml == Some(file.data) &&
        chunkReads == |file.data| / ChunkSize + 1
    {
      chunkReads := 0;
      if introspectionXml.None? {
        if file.Missing? {
          return Error(file.errno), 0;
        }
        var xml;
        xml, chunkReads := ReadAll(file.data);
        introspectionXml := Some(xml);
      }
      reply := Document(introspectionXml.value);
    }
  }

  /** Two calls in a row: once the first has succeeded, the second answers
      exactly what the first answered, without a read, whatever the file
      holds by then; a first call fails only on an empty cache and a file
      that could not be opened. */
  method IntrospectTwice(ctx: MethodHandlerContext, first: XmlFile, second: XmlFile)
    returns (r1: IntrospectReply, r2: IntrospectReply, chunkReads2: nat)
    modifies ctx
    ensures r1.Document? ==> r2 == r1 && chunkReads2 == 0
    ensures r1.Error? ==> old(ctx.introspectionXml).None? && first == Missing(r1.errno)
  {
    var chunkReads1;
    r1, chunkReads1 := ctx.Introspect(first);
    r2, chunkReads2 := ctx.Introspect(second);
  }
}
