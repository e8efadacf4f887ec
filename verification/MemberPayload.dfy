/**
 * The content audit of one archive member. The payload arrives in chunks of any size; the result
 * is stated on the whole payload, so no chunking can hide or create a finding.
 */
module MemberPayload {
  import opened Wrappers
  import opened Bytes
  import opened PayloadPatterns
  import Hex = IntelHex
  import Pdf = PdfObjects
  import opened Unicode

  /** What the audit reports; the digest stands for the bytes it was computed over. */
  datatype ContentAudit = ContentAudit(
    bytesRead: nat,
    exactSize: bool,
    forbiddenMagic: bool,
    digest: Option<bytes>,
    hasNul: bool,
    validUtf8: bool,
    forbiddenReference: bool,
    localHostPath: bool,
    gitLfsPointer: bool)

  datatype ReadError = ReaderExceededMemberSize

  // ---- the whole payload ----

  function Last(s: bytes, n: nat): bytes {
    if |s| <= n then s else s[|s| - n..]
  }

  function First(s: bytes, n: nat): bytes {
    if |s| <= n then s else s[..n]
  }

  /** A header near the start, an object after the leftmost header, an end mark near the end. */
  ghost predicate StructuredPdf(payload: bytes) {
    var header := HeaderFrom(First(payload, MAGIC_PROBE), 0);
    && header.Some? && header.value < HEADER_WINDOW
    && Pdf.DeclaresObject(payload[header.value + HEADER_BYTES..])
    && HasEofMark(Last(payload, TRAILER_WINDOW))
  }

  ghost function Audit(payload: bytes, exactSize: bool, binaryAllowed: bool): ContentAudit {
    ContentAudit(
      |payload|,
      exactSize,
      HasForbiddenBinaryMagic(First(payload, MAGIC_PROBE)) || StructuredPdf(payload) || Hex.IntelHexDocument(payload),
      if binaryAllowed then Some(payload) else None,
      !binaryAllowed && NUL in payload,
      binaryAllowed || ValidUtf8(payload),
      HasForbiddenWord(payload),
      HasHomePath(payload, 0, |payload|),
      LfsHeader() <= First(payload, MAGIC_PROBE))
  }

  /** What a sequence of reads delivers: the payload, how much is missing, and whether more follows. */
  datatype Intake = Intake(payload: bytes, missing: nat, extra: bool)

  function Deliver(arrivals: seq<bytes>, remaining: nat): Option<Intake> {
    if remaining == 0 then Some(Intake([], 0, arrivals != [] && arrivals[0] != []))
    else if arrivals == [] || arrivals[0] == [] then Some(Intake([], remaining, |arrivals| > 1 && arrivals[1] != []))
    else if |arrivals[0]| > remaining then None
    else
      match Deliver(arrivals[1..], remaining - |arrivals[0]|)
      case None => None
      case Some(rest) => Some(rest.(payload := arrivals[0] + rest.payload))
  }

  /** A reader that delivers a member of the announced size in nonempty chunks, and then stops. */
  lemma {:induction false} DeliversChunks(chunks: seq<bytes>)
    requires forall c :: c in chunks ==> c != []
    ensures Deliver(chunks, |Concat(chunks)|) == Some(Intake(Concat(chunks), 0, false))
  {
    if chunks != [] {
      assert chunks[0] in chunks && forall c :: c in chunks[1..] ==> c in chunks;
      DeliversChunks(chunks[1..]);
    }
  }

  // ---- what one more chunk changes ----

  lemma LastGrows(seen: bytes, chunk: bytes, n: nat)
    ensures Last(Last(seen, n) + chunk, n) == Last(seen + chunk, n)
  {
  }

  lemma FirstGrows(seen: bytes, chunk: bytes, n: nat)
    ensures |First(seen, n)| >= n ==> First(seen + chunk, n) == First(seen, n)
    ensures |First(seen, n)| < n ==> First(seen + chunk, n) == First(seen, n) + First(chunk, n - |First(seen, n)|)
  {
  }

  /** Two parts of a text that overlap by more than a word together show every occurrence of it. */
  lemma ContainsCovers(total: bytes, base: nat, cut: nat, word: bytes)
    requires base <= cut <= |total| && (base == 0 || cut - base >= |word|)
    ensures Contains(total, word) <==> Contains(total[0..cut], word) || Contains(total[base..|total|], word)
  {
    var front, back := total[0..cut], total[base..|total|];
    if Contains(total, word) {
      var at :| 0 <= at <= |total| - |word| && OccursAt(total, at, word);
      if at + |word| <= cut {
        OccursLocal(word, total, 0, cut, at);
        assert OccursAt(front, at, word);
      } else {
        OccursLocal(word, total, base, |total|, at);
        assert OccursAt(back, at - base, word);
      }
    }
    if Contains(front, word) {
      var at :| 0 <= at <= |front| - |word| && OccursAt(front, at, word);
      OccursLocal(word, total, 0, cut, at);
      assert OccursAt(total, at, word);
    }
    if Contains(back, word) {
      var at :| 0 <= at <= |back| - |word| && OccursAt(back, at, word);
      OccursLocal(word, total, base, |total|, base + at);
      assert OccursAt(total, base + at, word);
    }
  }

  /** The overlap carried from chunk to chunk is longer than every forbidden name. */
  lemma WordGrows(seen: bytes, chunk: bytes, word: bytes)
    requires 0 < |word| <= OVERLAP
    ensures Contains(Lower(seen + chunk), Lower(word)) <==>
      Contains(Lower(seen), Lower(word)) || Contains(Lower(Last(seen, OVERLAP + 1) + chunk), Lower(word))
  {
    var total, window := seen + chunk, Last(seen, OVERLAP + 1) + chunk;
    var base := |total| - |window|;
    assert Lower(window) == Lower(total)[base..|total|];
    assert Lower(seen) == Lower(total)[0..|seen|];
    ContainsCovers(Lower(total), base, |seen|, Lower(word));
  }

  lemma ForbiddenGrows(seen: bytes, chunk: bytes)
    ensures HasForbiddenWord(seen + chunk) <==>
      HasForbiddenWord(seen) || HasForbiddenWord(Last(seen, OVERLAP + 1) + chunk)
  {
    forall i | 0 <= i < |ForbiddenWords()|
      ensures Contains(Lower(seen + chunk), Lower(ForbiddenWords()[i])) <==>
        Contains(Lower(seen), Lower(ForbiddenWords()[i])) ||
        Contains(Lower(Last(seen, OVERLAP + 1) + chunk), Lower(ForbiddenWords()[i]))
    {
      WordGrows(seen, chunk, ForbiddenWords()[i]);
    }
  }

  /** A start is settled once OVERLAP bytes follow it: its match no longer depends on what comes. */
  ghost predicate SettledHomePath(seen: bytes) {
    HasHomePath(seen, 0, |seen| - OVERLAP)
  }

  /**
   * The window after a chunk is the old tail and the chunk. Its starts before the safe limit, less
   * the first byte when the byte before it is missing, are the ones the chunk settles.
   */
  lemma HomePathGrows(seen: bytes, chunk: bytes)
    ensures var window := Last(seen, OVERLAP + 1) + chunk;
      SettledHomePath(seen + chunk) <==>
        SettledHomePath(seen) ||
        HasHomePath(window, if |seen + chunk| == |window| then 0 else 1, |window| - OVERLAP)
  {
    hide HomePathAt;
    var total, window := seen + chunk, Last(seen, OVERLAP + 1) + chunk;
    var base := |total| - |window|;
    var least := if |total| == |window| then 0 else 1;
    assert window == total[base..|total|];
    assert seen == total[0..|seen|];
    if SettledHomePath(total) {
      var at :| 0 <= at < |total| - OVERLAP && at <= |total| && HomePathAt(total, at);
      if at >= |seen| - OVERLAP {
        HomePathLocal(total, base, |total|, at);
        assert HomePathAt(window, at - base);
      } else {
        HomePathLocal(total, 0, |seen|, at);
        assert HomePathAt(seen, at);
      }
    }
    if SettledHomePath(seen) {
      var at :| 0 <= at < |seen| - OVERLAP && at <= |seen| && HomePathAt(seen, at);
      HomePathLocal(total, 0, |seen|, at);
      assert HomePathAt(total, at);
    }
    if HasHomePath(window, least, |window| - OVERLAP) {
      var k :| least <= k < |window| - OVERLAP && k <= |window| && HomePathAt(window, k);
      HomePathLocal(total, base, |total|, base + k);
      assert HomePathAt(total, base + k);
    }
  }

  /** At the end the remaining tail settles every start that was still open. */
  lemma HomePathEnds(seen: bytes)
    ensures var tail := Last(seen, OVERLAP + 1);
      HasHomePath(seen, 0, |seen|) <==>
        SettledHomePath(seen) || HasHomePath(tail, if |seen| == |tail| then 0 else 1, |tail|)
  {
    hide HomePathAt;
    var tail := Last(seen, OVERLAP + 1);
    var base := |seen| - |tail|;
    var least := if |seen| == |tail| then 0 else 1;
    assert tail == seen[base..|seen|];
    if HasHomePath(seen, 0, |seen|) {
      var at :| 0 <= at < |seen| && at <= |seen| && HomePathAt(seen, at);
      if at >= |seen| - OVERLAP {
        HomePathLocal(seen, base, |seen|, at);
        assert HomePathAt(tail, at - base);
      }
    }
    if HasHomePath(tail, least, |tail|) {
      var k :| least <= k < |tail| && k <= |tail| && HomePathAt(tail, k);
      HomePathLocal(seen, base, |seen|, base + k);
      assert HomePathAt(seen, base + k);
    }
  }

  lemma HeaderStays(prefix: bytes, more: bytes)
    requires HeaderFrom(prefix, 0).Some?
    ensures HeaderFrom(prefix + more, 0) == HeaderFrom(prefix, 0)
  {
    var h := HeaderFrom(prefix, 0).value;
    var longer := prefix + more;
    forall k: nat | k + HEADER_BYTES <= |prefix|
      ensures HeaderAt(longer, k) <==> HeaderAt(prefix, k)
    {
      assert longer[k..k + |PdfDash()|] == prefix[k..k + |PdfDash()|];
    }
    assert HeaderAt(longer, h);
    var g := HeaderFrom(longer, 0);
    assert g.Some? && g.value <= h;
  }

  /** The scanner stands where it would after reading everything behind the leftmost header. */
  ghost predicate PdfTracks(seen: bytes, scanner: Pdf.PdfObjectScanner?, scanned: nat)
    reads scanner
  {
    var header := HeaderFrom(First(seen, MAGIC_PROBE), 0);
    && (scanner == null <==> header.None?)
    && (scanner != null ==>
          && scanner.State() == Pdf.ScanBytes(Pdf.START, seen[header.value + HEADER_BYTES..])
          && (!scanner.found ==> scanned == |seen|))
  }

  /** One chunk of the PDF part: the header search over the prefix, then the object scanner. */
  method AdvancePdf(ghost seen: bytes, chunk: bytes, prefix: bytes, bytesRead: nat,
                    scanner: Pdf.PdfObjectScanner?, scanned: nat)
    returns (next: Pdf.PdfObjectScanner?, nextScanned: nat)
    requires prefix == First(seen + chunk, MAGIC_PROBE) && bytesRead == |seen + chunk|
    requires PdfTracks(seen, scanner, scanned)
    modifies scanner
    ensures next == scanner || fresh(next)
    ensures PdfTracks(seen + chunk, next, nextScanned)
  {
    hide HeaderFrom, HeaderAt, Pdf.ScanBytes;
    ghost var total := seen + chunk;
    next, nextScanned := scanner, scanned;
    FirstGrows(seen, chunk, MAGIC_PROBE);
    if scanner == null {
      var header := HeaderFrom(prefix, 0);
      if header.Some? && header.value < HEADER_WINDOW {
        HeaderIsNew(seen, chunk);
        next := new Pdf.PdfObjectScanner();
        next.Feed(prefix[header.value + HEADER_BYTES..]);
        nextScanned := |prefix|;
        assert prefix[header.value + HEADER_BYTES..] == total[header.value + HEADER_BYTES..|prefix|];
      }
    } else {
      ghost var earlier := First(seen, MAGIC_PROBE);
      if |earlier| < MAGIC_PROBE {
        HeaderStays(earlier, First(chunk, MAGIC_PROBE - |earlier|));
      }
      assert seen[HeaderFrom(earlier, 0).value + HEADER_BYTES..]
        == total[HeaderFrom(prefix, 0).value + HEADER_BYTES..|seen|];
    }
    if next != null {
      ghost var from := HeaderFrom(prefix, 0).value + HEADER_BYTES;
      ghost var fed := if scanner == null then |prefix| else |seen|;
      nextScanned := FeedRest(total, from, fed, chunk, bytesRead, next, nextScanned);
    }
  }

  /** The chunk bytes that the scanner has not read yet, unless it has found an object. */
  method FeedRest(ghost total: bytes, ghost from: nat, ghost fed: nat, chunk: bytes, bytesRead: nat,
                  scanner: Pdf.PdfObjectScanner, scanned: nat)
    returns (nextScanned: nat)
    requires |chunk| <= bytesRead == |total| && total[|total| - |chunk|..] == chunk
    requires from <= fed <= |total| && |total| - |chunk| <= fed
    requires scanner.State() == Pdf.ScanBytes(Pdf.START, total[from..fed])
    requires !scanner.found ==> scanned == fed
    modifies scanner
    ensures scanner.State() == Pdf.ScanBytes(Pdf.START, total[from..])
    ensures !scanner.found ==> nextScanned == |total|
  {
    nextScanned := scanned;
    assert total[from..] == total[from..fed] + total[fed..];
    Pdf.ScanBytesConcat(Pdf.START, total[from..fed], total[fed..]);
    if scanner.found {
      Pdf.FoundStays(scanner.State(), total[fed..]);
    } else {
      var chunkOffset := bytesRead - |chunk|;
      var scanOffset := if scanned > chunkOffset then scanned else chunkOffset;
      assert chunk[scanOffset - chunkOffset..] == total[fed..];
      if scanOffset < bytesRead {
        scanner.Feed(chunk[scanOffset - chunkOffset..]);
        nextScanned := bytesRead;
      } else {
        assert total[from..fed] == total[from..];
      }
    }
  }

  /** Where the text checks stand; a payload that may be binary is not checked. */
  ghost predicate TextTracks(seen: bytes, binaryAllowed: bool, hasNul: bool, decoder: Option<bytes>, validUtf8: bool) {
    && (hasNul <==> !binaryAllowed && NUL in seen)
    && decoder == (if binaryAllowed then None else DecodePart(seen))
    && (validUtf8 <==> binaryAllowed || decoder.Some?)
  }

  /** One chunk of the text checks; the decoder carries an incomplete character over and is dropped at an error. */
  method AdvanceText(ghost seen: bytes, chunk: bytes, binaryAllowed: bool, hasNul: bool, decoder: Option<bytes>,
                     validUtf8: bool)
    returns (nextNul: bool, nextDecoder: Option<bytes>, nextValid: bool)
    requires TextTracks(seen, binaryAllowed, hasNul, decoder, validUtf8)
    ensures TextTracks(seen + chunk, binaryAllowed, nextNul, nextDecoder, nextValid)
  {
    hide DecodePart;
    nextNul, nextDecoder, nextValid := hasNul, decoder, validUtf8;
    if !binaryAllowed {
      nextNul := hasNul || NUL in chunk;
      DecodesInPieces(seen, chunk);
      if decoder.Some? {
        nextDecoder := DecodePart(decoder.value + chunk);
        if nextDecoder.None? {
          nextValid := false;
        }
      }
    }
  }

  /** An incomplete character at the end is an error too. */
  method FinishText(ghost seen: bytes, binaryAllowed: bool, ghost hasNul: bool, decoder: Option<bytes>, validUtf8: bool)
    returns (valid: bool)
    requires TextTracks(seen, binaryAllowed, hasNul, decoder, validUtf8)
    ensures valid <==> binaryAllowed || ValidUtf8(seen)
    ensures hasNul <==> !binaryAllowed && NUL in seen
  {
    hide DecodePart, ValidUtf8;
    DecodesAll(seen);
    valid := validUtf8 && (decoder.Some? ==> decoder.value == []);
  }

  /** A header that appears with this chunk lies in a prefix longer than what was seen. */
  lemma HeaderIsNew(seen: bytes, chunk: bytes)
    requires HeaderFrom(First(seen, MAGIC_PROBE), 0).None?
    requires HeaderFrom(First(seen + chunk, MAGIC_PROBE), 0).Some?
    ensures |seen| < MAGIC_PROBE && |First(seen + chunk, MAGIC_PROBE)| >= |seen|
  {
    FirstGrows(seen, chunk, MAGIC_PROBE);
  }

  ghost function Prefixed(seen: bytes, d: Option<Intake>): Option<Intake> {
    match d
    case None => None
    case Some(intake) => Some(intake.(payload := seen + intake.payload))
  }

  lemma DeliverStep(seen: bytes, arrivals: seq<bytes>, next: nat, remaining: nat)
    requires next < |arrivals| && arrivals[next] != [] && 0 < |arrivals[next]| <= remaining
    ensures Prefixed(seen, Deliver(arrivals[next..], remaining)) ==
      Prefixed(seen + arrivals[next], Deliver(arrivals[next + 1..], remaining - |arrivals[next]|))
  {
    assert arrivals[next..][1..] == arrivals[next + 1..];
    var d := Deliver(arrivals[next + 1..], remaining - |arrivals[next]|);
    if d.Some? {
      assert seen + (arrivals[next] + d.value.payload) == (seen + arrivals[next]) + d.value.payload;
    }
  }

  /** `arrivals` are the results of the successive reads; reads past them return nothing. */
  method ScanMemberPayload(arrivals: seq<bytes>, memberSize: nat, binaryAllowed: bool)
    returns (result: Result<ContentAudit, ReadError>)
    ensures match Deliver(arrivals, memberSize)
      case None => result == Err(ReaderExceededMemberSize)
      case Some(d) => result == Ok(Audit(d.payload, d.missing == 0 && !d.extra, binaryAllowed))
  {
    hide *;
    var remaining: nat := memberSize;
    var bytesRead, next := 0, 0;
    var prefix, scanTail, pdfTail: bytes := [], [], [];
    var pdf: Pdf.PdfObjectScanner? := null;
    var pdfScanned := 0;
    var hex := new Hex.IntelHexScanner();
    var contentDigest: Option<bytes> := if binaryAllowed then Some([]) else None;
    var hasNul, forbiddenReference, localHostPath := false, false, false;
    var validUtf8 := true;
    var decoder: Option<bytes> := if binaryAllowed then None else Some([]);
    ghost var seen: bytes := [];
    NothingSeen(arrivals, memberSize);
    while remaining > 0 && next < |arrivals| && arrivals[next] != []
      invariant 0 <= next <= |arrivals| && bytesRead == |seen|
      invariant Deliver(arrivals, memberSize) == Prefixed(seen, Deliver(arrivals[next..], remaining))
      invariant prefix == First(seen, MAGIC_PROBE)
      invariant pdfTail == Last(seen, TRAILER_WINDOW) && scanTail == Last(seen, OVERLAP + 1)
      invariant contentDigest == if binaryAllowed then Some(seen) else None
      invariant TextTracks(seen, binaryAllowed, hasNul, decoder, validUtf8)
      invariant forbiddenReference <==> HasForbiddenWord(seen)
      invariant localHostPath <==> SettledHomePath(seen)
      invariant fresh(hex) && hex.Valid() && hex.State() == Hex.StreamBytes(Hex.START, seen)
      invariant pdf == null || fresh(pdf)
      invariant PdfTracks(seen, pdf, pdfScanned)
      decreases |arrivals| - next
    {
      var chunk := arrivals[next];
      if |chunk| > remaining {
        Oversized(seen, arrivals, next, remaining);
        return Err(ReaderExceededMemberSize);
      }
      DeliverStep(seen, arrivals, next, remaining);
      next := next + 1;
      remaining := remaining - |chunk|;
      bytesRead := bytesRead + |chunk|;
      if contentDigest.Some? {
        contentDigest := Some(contentDigest.value + chunk);
      }
      FirstGrows(seen, chunk, MAGIC_PROBE);
      if |prefix| < MAGIC_PROBE {
        prefix := prefix + First(chunk, MAGIC_PROBE - |prefix|);
      }
      LastGrows(seen, chunk, TRAILER_WINDOW);
      pdfTail := Last(pdfTail + chunk, TRAILER_WINDOW);
      Hex.StreamBytesConcat(Hex.START, seen, chunk);
      hex.Feed(chunk);
      var window := scanTail + chunk;
      pdf, pdfScanned := AdvancePdf(seen, chunk, prefix, bytesRead, pdf, pdfScanned);
      ForbiddenGrows(seen, chunk);
      if !forbiddenReference {
        forbiddenReference := HasForbiddenWord(window);
      }
      HomePathGrows(seen, chunk);
      if !localHostPath {
        var safeStartLimit := if |window| > OVERLAP then |window| - OVERLAP else 0;
        localHostPath := ContainsLocalHostPathBefore(window, safeStartLimit, if bytesRead == |window| then 0 else 1);
        NoStartsBelowZero(window, if bytesRead == |window| then 0 else 1);
      }
      LastGrows(seen, chunk, OVERLAP + 1);
      scanTail := Last(window, OVERLAP + 1);
      hasNul, decoder, validUtf8 := AdvanceText(seen, chunk, binaryAllowed, hasNul, decoder, validUtf8);
      seen := seen + chunk;
    }
    var extra := if remaining == 0 then next < |arrivals| && arrivals[next] != []
                 else next + 1 < |arrivals| && arrivals[next + 1] != [];
    Stopped(seen, arrivals, next, remaining);
    HomePathEnds(seen);
    if !localHostPath {
      localHostPath := ContainsLocalHostPathBefore(scanTail, |scanTail|, if bytesRead == |scanTail| then 0 else 1);
    }
    validUtf8 := FinishText(seen, binaryAllowed, hasNul, decoder, validUtf8);
    var forbiddenMagic := HasMagic(seen, prefix, pdfTail, pdf, pdfScanned, hex);
    result := Ok(ContentAudit(
      bytesRead, remaining == 0 && !extra, forbiddenMagic, contentDigest, hasNul, validUtf8,
      forbiddenReference, localHostPath, LfsHeader() <= prefix));
    Assembled(seen, remaining == 0 && !extra, binaryAllowed);
  }

  /** The three ways a payload can be a packaged artifact. */
  method HasMagic(ghost seen: bytes, prefix: bytes, pdfTail: bytes, pdf: Pdf.PdfObjectScanner?,
                  ghost pdfScanned: nat, hex: Hex.IntelHexScanner)
    returns (forbidden: bool)
    requires prefix == First(seen, MAGIC_PROBE) && pdfTail == Last(seen, TRAILER_WINDOW)
    requires PdfTracks(seen, pdf, pdfScanned)
    requires hex.Valid() && hex.State() == Hex.StreamBytes(Hex.START, seen)
    modifies hex
    ensures forbidden <==>
      HasForbiddenBinaryMagic(First(seen, MAGIC_PROBE)) || StructuredPdf(seen) || Hex.IntelHexDocument(seen)
  {
    hide HeaderFrom, HeaderAt, Hex.StreamBytes, Pdf.ScanBytes;
    var structuredPdf := false;
    var header := HeaderFrom(prefix, 0);
    if header.Some? {
      Pdf.FoundExact(seen[header.value + HEADER_BYTES..]);
      if header.value < HEADER_WINDOW && pdf != null && pdf.found {
        structuredPdf := HasEofMark(pdfTail);
      }
    }
    Hex.VerdictExact(seen);
    var intelHex := hex.Finish();
    forbidden := HasForbiddenBinaryMagic(prefix) || structuredPdf || intelHex;
  }

  lemma NothingSeen(arrivals: seq<bytes>, memberSize: nat)
    ensures Deliver(arrivals, memberSize) == Prefixed([], Deliver(arrivals[0..], memberSize))
    ensures !HasForbiddenWord([]) && !SettledHomePath([])
    ensures PdfTracks([], null, 0) && Hex.StreamBytes(Hex.START, []) == Hex.START
    ensures TextTracks([], true, false, None, true) && TextTracks([], false, false, Some([]), true)
    ensures First([], MAGIC_PROBE) == [] && Last([], TRAILER_WINDOW) == [] && Last([], OVERLAP + 1) == []
  {
    assert arrivals[0..] == arrivals;
    var d := Deliver(arrivals, memberSize);
    if d.Some? {
      assert [] + d.value.payload == d.value.payload;
    }
  }

  lemma Oversized(seen: bytes, arrivals: seq<bytes>, next: nat, remaining: nat)
    requires next < |arrivals| && arrivals[next] != [] && 0 < remaining < |arrivals[next]|
    ensures Prefixed(seen, Deliver(arrivals[next..], remaining)) == None
  {
  }

  lemma Stopped(seen: bytes, arrivals: seq<bytes>, next: nat, remaining: nat)
    requires next <= |arrivals|
    requires remaining == 0 || next == |arrivals| || arrivals[next] == []
    ensures var extra := if remaining == 0 then next < |arrivals| && arrivals[next] != []
                         else next + 1 < |arrivals| && arrivals[next + 1] != [];
      Prefixed(seen, Deliver(arrivals[next..], remaining)) == Some(Intake(seen, remaining, extra))
  {
    assert seen + [] == seen;
  }

  lemma NoStartsBelowZero(window: bytes, least: nat)
    ensures HasHomePath(window, least, if |window| > OVERLAP then |window| - OVERLAP else 0) <==>
      HasHomePath(window, least, |window| - OVERLAP)
  {
  }

  lemma Assembled(seen: bytes, exactSize: bool, binaryAllowed: bool)
    ensures Audit(seen, exactSize, binaryAllowed) == ContentAudit(
      |seen|, exactSize,
      HasForbiddenBinaryMagic(First(seen, MAGIC_PROBE)) || StructuredPdf(seen) || Hex.IntelHexDocument(seen),
      if binaryAllowed then Some(seen) else None,
      !binaryAllowed && NUL in seen,
      binaryAllowed || ValidUtf8(seen),
      HasForbiddenWord(seen),
      HasHomePath(seen, 0, |seen|),
      LfsHeader() <= First(seen, MAGIC_PROBE))
  {
  }
}
