# Verified model of the OProW core

OProW binds media to signed provenance manifests: a short pointer is hidden in the media, the
pointer names a manifest by hash, and indices and envelopes help to find it. This project models
the algorithms that have to be exactly right for that, and proves that they are:

* **Rateless recovery** (`LinearAlgebra`, `Gf2`, `Equations`, `Records`, `ImageAlpha`). One-bit
  linear equations about a 160-bit key are spread over image tiles; an incremental Gaussian
  elimination recovers the key from whatever tiles survive. The solver is proved against the
  solution set of the linear system, and the carrier end to end.
* **Authenticated index** (`Hashes`, `SparseMerkle`, `Ranking`, `Hints`, `References`, `Candidates`,
  `RouteIndex`, `AuthenticatedIndex`). A sparse Merkle map with a lazily rebuilt cache is proved
  against the dense tree, its openings complete and sound without assuming anything about the hash,
  and the index on top of it against the plain multimap.
* **Deterministic CBOR and manifests** (`Lex`, `Canonical`, `CborForm`, `FieldNames`, `Schema`,
  `Objects`, `Manifest`, `Documents`, `WireFields`, `Received`). The encoder and the offset-driven
  decoder are exact inverses, both follow the byte layout of sections 3 and 4.2.1 of RFC 8949, stated
  on its own, and it is proved exactly when the manifest codec keeps the addressed bytes.
* **Watermark channel** (`BitInts`, `Digits`, `BitLists`, `Crc`, `Ecc`, `Payload`, `Qim`). CRC-16
  detection, exact resynchronisation behind carrier shifts, the payload codec, and quantization
  index modulation with its majority vote.

Objects that the program updates in place are classes or arrays here; the loops of the program are
methods proved against specification functions; everything else is functions and lemmas. Hashes,
the UTF-8 validity check, Python's `hash` and the equation hash stream are parameters. Key width,
tree depth and repetition counts are parameters as well.

Values of record fields are the primitives they convert to, except in claim bodies, which hold any
Python objects (`Objects`); the other fields have the types they are declared with.

Places where the code does something a reader of its documentation might not expect, each with the
input that shows it and the exact condition:

* At exactly half a quantization step a 1 is lost and a 0 survives, because halves round to even;
  `Qim.SmallDrift` gives the exact condition.
* The plain index tallies by manifest key and filters afterwards, the authenticated one filters first.
  If one manifest is held under two namespaces, a lookup may find it in one index only
  (`RouteIndex.TwoNamespacesDiffer`). And the plain index breaks ties by manifest key, the
  authenticated one by short id first, so that without a short id equally often hit references can
  come out in different orders (`RouteIndex.WithoutShortIdOrderDiffers`). After any history of
  references with manifest keys the two answer every lookup alike if and only if equal keys go with
  equal short ids and namespaces and no smaller key goes with a larger short id
  (`RouteIndex.AgreeIffAligned`); for references derived from manifest bytes, if and only if no
  manifest is held under two namespaces (`RouteIndex.DerivedAgreeIff`).
* Constructors accept empty texts that decoders refuse. A reference with a storage hint of empty type
  is stored and found by the plain index, but makes every authenticated lookup of its bucket raise
  (`AuthenticatedIndex.UnreadableHintRaises`, `AuthenticatedIndex.AllResultsAgree`); an envelope with
  evidence of empty type encodes but does not decode (`Documents.EmptyTypeRaises`,
  `Documents.ConstructedDocument`).
* An empty tuple in a claim body is kept when absent fields are dropped, becomes an empty list on the
  wire and is dropped after decoding, so that the addressed bytes change
  (`Manifest.EmptyTupleChangesBytes`, `Manifest.CodecKeepsAddressedBytes`).

`dafny verify dfyconfig.toml` checks the whole project.

## Model

| member | source | states |
|---|---|---|
| Gf2.SolveGf2 | oprow/rateless/gf2.py:189-274 | For every width and equation list: it raises exactly when the width is not positive or a malformed row is reached behind a consistent prefix; it reports consistent exactly when a solution exists, with `seen = rank + redundant + inconsistent`; a consistent system of rank r has exactly 2^(width - r) solutions, and `solved` holds exactly when the solution is unique, in which case it is the one returned; an inconsistent report names the first row that contradicts the rows before it |
| Gf2.Reduce | oprow/rateless/gf2.py:225-231 | Reducing a row high-to-low against a reduced basis leaves no pivot in it, changes its mask only within the span and keeps the solutions |
| Gf2.EliminatePivot | oprow/rateless/gf2.py:249-256 | The new pivot is removed from every existing row that contains it, and nothing else changes |
| Gf2.NewPivot | oprow/rateless/gf2.py:249-256 | Inserting a pivot keeps the loop invariant: every basis row has its key as top bit and holds no other pivot, the basis has the solutions of the equations read so far, and its size is their rank |
| Gf2.ZeroRow | oprow/rateless/gf2.py:233-247 | A row that reduces to nothing is implied by the earlier equations when its right-hand side is 0 and contradicts them when it is 1 |
| Gf2.FullBasis | oprow/rateless/gf2.py:258-264 | With full rank every pivot row holds one solution bit in its right-hand side, and the number read off is the solution |
| Gf2.ReadSolution | oprow/rateless/gf2.py:258-264 | The solution has exactly the bits whose pivot rows have right-hand side 1 |
| Gf2.Gf2Rank | oprow/rateless/gf2.py:166-186 | Rejects exactly the rows that do not fit the width; otherwise the ordinary echelon basis has as many rows as the span has leading bits, which is the rank `solve_gf2` reports for a consistent system |
| Gf2.ReducedUnique | oprow/rateless/gf2.py:225-256 | Two reduced bases over the same span have the same pivots, exactly the leading bits of the non-zero vectors of the span, and the same masks |
| Gf2.OrderIrrelevant | oprow/rateless/gf2.py:189-274 | Two lists of the same equations, in any order and with any repetitions, get the same consistency verdict, and if consistent the same rank and solution |
| Gf2.ConflictMeansNone | oprow/rateless/gf2.py:234-245 | A reported contradiction means that the whole system has no solution |
| LinearAlgebra.SolutionCount | oprow/rateless/gf2.py:132-142 | A solvable system has 2^(width - rank) solutions |
| LinearAlgebra.UniqueIffFullRank | oprow/rateless/gf2.py:132-136 | A solvable system has one solution exactly when its rank is the width |
| LinearAlgebra.RankOfSameRows | oprow/rateless/gf2.py:166-186 | Rank depends only on which rows occur |
| LinearAlgebra.Separate | oprow/rateless/gf2.py:220-256 | A mask outside the span of the rows is separated from them: some vector is orthogonal to every row but not to the mask |
| BitInts.BitIsShift | oprow/rateless/gf2.py:230-254 | The recursive bit test is the shift-and-mask test |
| Equations.SparseMaskForEquation | oprow/rateless/equations.py:132-154 | Raises exactly for ids beyond the profile; otherwise the mask has exactly the positions drawn by the shortest stream prefix with `weight` distinct positions |
| Equations.SparseMaskUnique | oprow/rateless/equations.py:132-154 | The id and the public stream determine the mask |
| Equations.PositionsDrawn | oprow/rateless/equations.py:132-154 | The positions drawn by n chunks are the chunks modulo the width |
| Equations.EquationForKey | oprow/rateless/equations.py:179-191 | Raises exactly for an id beyond the profile, a key that does not fit its width, or a negative confidence; otherwise the equation carries the id, the regenerated row, the inner product of row and key, and the confidence |
| Equations.DeduplicateEquations | oprow/rateless/equations.py:210-224 | One record per id, in increasing id order, each the earliest among those of highest confidence |
| Equations.DeduplicatedUnique | oprow/rateless/equations.py:210-224 | Every list has exactly one deduplicated form |
| Equations.HonestRowsKept | oprow/rateless/equations.py:210-224 | Deduplicating honest equations loses no row |
| Equations.HonestSystem | oprow/rateless/equations.py:227-253 | The key solves every system of honest equations, and is its only solution exactly at full rank |
| Equations.SolveManifestKeyFromEquations | oprow/rateless/equations.py:227-253 | For every list: the records kept are its deduplicated form; it raises exactly when one of them does not fit the width and those before it do not contradict each other; otherwise the report is what the solver owes about the records kept, and for every key of the right size the key is returned if and only if it is the one solution of the records kept. For honest equations about K this means: K when the surviving masks have full rank, and no key otherwise |
| Equations.MoreEquationsKeepKey | oprow/rateless/equations.py:227-253 | Adding honest equations never loses the key |
| Records.RecordRoundTrip | oprow/rateless/records.py:88-117 | Decoding returns the record that was encoded, whatever bits follow |
| Records.RecordExact | oprow/rateless/records.py:99-117 | Only encodings are accepted: an accepted bit string is the encoding of the record returned |
| Records.RecordBijection | oprow/rateless/records.py:88-117 | The codec is a bijection between valid records and accepted 56-bit prefixes |
| Records.RecordLayout | oprow/rateless/records.py:70-95 | The 56 bits of a record are the text OR, version, equation id, right-hand side, reserved bits, and the CRC-16 of those four |
| Records.TileDamageRejected | oprow/rateless/records.py:83-117 | Damage to the 40 bits behind the preamble is rejected when it flips an odd number of bits, two bits, or only bits within 16 consecutive positions |
| Records.MajorityDecodeRepeatedRecord | oprow/rateless/records.py:140-173 | Raises on a repetition count below 1 and on too few bits. Otherwise each bit voted is 1 exactly when more than half of its copies are, and it raises exactly when the bits voted do not decode; the result carries what they decode to, the number of carrier bits that differ from their copies, and the share of those that do not as confidence |
| Records.ColumnsAreFlips | oprow/rateless/records.py:156-163 | Flips counted vote column by vote column are the flips along the carrier |
| Records.RepeatedRecordSurvives | oprow/rateless/records.py:131-173 | For every repetition count, even ones too: flips in fewer than half of the copies of each record bit leave the record intact, and `bit_disagreements` is the number of flips |
| Records.BurstSurvived | oprow/rateless/records.py:131-173 | Every burst of at most 56 * ((r - 1) / 2) consecutive flips leaves the record intact |
| Records.BurstBoundTight | oprow/rateless/records.py:131-173 | One flip more, wherever the burst lies within the copies, and the record is lost: for every odd r, and for an even one when the burst starts with a 1 |
| ImageAlpha.Carrier.TileCoords | oprow/rateless/image_alpha.py:103-121 | The complete tiles along rows, cut off behind the last equation id: in bounds and pairwise disjoint |
| ImageAlpha.Carrier.CompleteTiles | oprow/rateless/image_alpha.py:103-121 | The nested loops list tile i at column i mod columns and row i div columns |
| ImageAlpha.Carrier.TilesCutOff | oprow/rateless/image_alpha.py:103-121 | There are as many tiles as complete ones, or as there are equation ids if these are fewer |
| ImageAlpha.Carrier.TileAt | oprow/rateless/image_alpha.py:103-121 | The tile in the given grid row and column begins at that column and row times the tile size |
| ImageAlpha.Carrier.CellAt | oprow/rateless/image_alpha.py:142-159 | Carrier bit row * size + column is held by the pixel in that row and column of the tile |
| ImageAlpha.Carrier.WriteAlphaLsbBits | oprow/rateless/image_alpha.py:146-159 | Fails exactly when the bits do not fit; otherwise sets the first pixels of the tile to opaque alpha with the bit as lowest bit and changes no colour and no other pixel |
| ImageAlpha.Carrier.WriteTile | oprow/rateless/image_alpha.py:142-159 | The written tile reads back the bits row by row, and every other tile reads as before |
| ImageAlpha.Carrier.Embed | oprow/rateless/image_alpha.py:161-207 | Succeeds exactly when the repeated record fits a tile, the repetition count is positive, the payload is FULL160_RATELESS, and there are between 1 and 65536 tiles; afterwards every tile begins with the copies of the record of its own equation about the key and decodes to it; colours never change |
| ImageAlpha.EmbeddedLayout | oprow/rateless/image_alpha.py:161-207 | Every copy of the record in an embedded tile is the text OR, version 1, the tile number as id, the right-hand side of a true equation about the key, three zero bits, and the CRC-16 of those |
| ImageAlpha.IntactDecodes | oprow/rateless/image_alpha.py:161-240 | An untouched tile decodes to its record without disagreement |
| ImageAlpha.Carrier.Extract | oprow/rateless/image_alpha.py:209-282 | Never ends in an error, whatever the pixels. For every 20-byte key: a watermark with that key as pointer comes out if and only if the key is the one solution of the deduplicated recovered equations, and what comes out is a well-formed FULL160_RATELESS payload with version 1, algorithm id 0x013, no extra flags and the right checksum. When every tile decodes to a true equation about K or fails, K is the pointer exactly when the surviving rows have rank 160, and there is no watermark otherwise |
| ImageAlpha.GenuineReadings | oprow/rateless/image_alpha.py:217-248 | Tiles that tell the truth about the key yield honest equations, because the row is regenerated from the id |
| ImageAlpha.Carrier.ReadEquations | oprow/rateless/image_alpha.py:215-246 | Of every tile that decodes to an id the profile knows one equation is collected, in tile order, with the id, the right-hand side and the confidence read and the regenerated row; the others are counted as failures |
| ImageAlpha.OwnOrLostIsGenuine | oprow/rateless/image_alpha.py:217-248 | Tiles that hold their own record or none tell the truth |
| ImageAlpha.EndToEnd | oprow/rateless/image_alpha.py:161-282 | From embedding through damage to extraction: when of each tile fewer than half of the copies of each record bit are flipped, or it keeps its record all the same, or it no longer decodes, the equations collected are exactly those of the tiles that decode, all lightly damaged ones among them; the payload that comes out is well formed and its pointer is the pointer that was embedded exactly when their rows have rank 160, and there is no watermark otherwise |
| Hashes.FrameParts | oprow/core/hashes.py:71-81 | Raises exactly when a length reaches 2^64; otherwise builds the framed preimage |
| Hashes.FieldLayout | oprow/core/hashes.py:71-81 | A field is its length as an eight-byte number and then its content |
| Hashes.FrameInjective | oprow/core/hashes.py:71-86 | The preimage determines the domain and the list of parts |
| SparseMerkle.Smt.ComputeRoot | oprow/authmap/sparse_merkle.py:163-189 | Fails exactly when the existence flag and the value disagree; otherwise the loop is the hash walk from the leaf to the root |
| SparseMerkle.Smt.Verify | oprow/authmap/sparse_merkle.py:191-196 | True exactly when the proof opens the value under the root |
| SparseMerkle.Smt.PathStep | oprow/authmap/sparse_merkle.py:83-94 | The prefix index used when opening and the path bit used when verifying agree at every level |
| SparseMerkle.Smt.KeyBitIsBit | oprow/authmap/sparse_merkle.py:83-94 | The path bit of a level is the bit of the key at that place, most significant first |
| SparseMerkle.Smt.RootJoins | oprow/authmap/sparse_merkle.py:163-196 | Under an accepted proof the root is the hash of a node that has the first sibling on the right exactly when the first bit of the key is 0, and on the left otherwise |
| SparseMerkle.Smt.PreimageLayouts | oprow/authmap/sparse_merkle.py:97-133 | What is hashed for nodes, leaves and empty leaves, byte by byte |
| SparseMerkle.Smt.WalkClimbsDense | oprow/authmap/sparse_merkle.py:163-189 | Along siblings of the dense tree the walk passes through the dense node of every level |
| SparseMerkle.Smt.OpeningComplete | oprow/authmap/sparse_merkle.py:163-196 | Siblings read off the dense tree prove the value of any key, present or absent |
| SparseMerkle.Smt.OpeningCollision | oprow/authmap/sparse_merkle.py:97-196 | From two accepting proofs for one key and one root with different values, present or absent, two distinct preimages with equal hash are computed; nothing is assumed about the hash |
| SparseMerkle.Smt.ForgeryCollision | oprow/authmap/sparse_merkle.py:191-196 | An accepted proof against the root of a map that misstates the map yields a collision |
| SparseMerkle.Smt.MapCollision | oprow/authmap/sparse_merkle.py:312-315 | Two maps that differ at a key but share a root yield a collision |
| SparseMerkle.Smt.BuildLeaves | oprow/authmap/sparse_merkle.py:344-346 | The leaf level holds exactly the leaves of the entries |
| SparseMerkle.Smt.BuildParents | oprow/authmap/sparse_merkle.py:348-363 | If a level agrees with the dense tree, so does the level above it, although default-valued nodes are not stored |
| SparseMerkle.SparseMerkleMap.constructor | oprow/authmap/sparse_merkle.py:283-286 | A map with the given entries and nothing cached |
| SparseMerkle.SparseMerkleMap.Set | oprow/authmap/sparse_merkle.py:299-301 | Sets the entry and keeps the invariant that whatever is cached is what a fresh build gives |
| SparseMerkle.SparseMerkleMap.Delete | oprow/authmap/sparse_merkle.py:303-306 | Removes the entry if present and keeps the invariant |
| SparseMerkle.SparseMerkleMap.MarkDirty | oprow/authmap/sparse_merkle.py:308-310 | Drops the cached nodes and root |
| SparseMerkle.SparseMerkleMap.EnsureBuilt | oprow/authmap/sparse_merkle.py:341-366 | Every level and index of the cache, or else the level default, is the dense hash |
| SparseMerkle.SparseMerkleMap.RootHash | oprow/authmap/sparse_merkle.py:312-315 | The root is that of the dense tree over the current entries, whatever calls led to them |
| SparseMerkle.SparseMerkleMap.Open | oprow/authmap/sparse_merkle.py:320-336 | The opening of any key states the value of the map and verifies against its root |
| SparseMerkle.SparseMerkleMap.VerifyOpening | oprow/authmap/sparse_merkle.py:338-339 | True exactly for openings that verify against the current root |
| CborForm.HeadLayout | oprow/core/canonical.py:80-95 | An encoded head has the major type in its top three bits; an argument below 24 in the other five, otherwise 24, 25, 26 or 27 there and the argument in 1, 2, 4 or 8 bytes, the fewest that hold it; it raises exactly from 2^64 on. Nothing else has this layout |
| CborForm.DecodesIffHead | oprow/core/canonical.py:188-230 | The bytes between two offsets decode as a head of a major type and an argument if and only if they have that layout |
| CborForm.EncodesIffLayout | oprow/core/canonical.py:98-122 | For every value and byte string: the encoder returns the byte string if and only if it is related to the value by the layout rules: the simple values, heads, the items of a list one after the other, the entries of a map in strictly ascending order of their encoded text keys |
| CborForm.DecodesIffLayout | oprow/core/canonical.py:233-292 | For all data and offsets: the decoder reads a value from between two offsets if and only if its layout stands there, the value is in canonical order and its text is valid |
| CborForm.LoadsIffLayout | oprow/core/canonical.py:295-316 | Loading accepts exactly the layouts of such values |
| Canonical.DecodeAt | oprow/core/canonical.py:233-292 | The offset-driven loops terminate on every input, although counts come from it, and compute the recursive decoder, which reads exactly the layouts (CborForm.DecodesIffLayout) |
| Canonical.DecodeEncoded | oprow/core/canonical.py:98-122 | At any offset the encoding of a canonical value decodes to it and ends where the encoding ends |
| Canonical.DecodeExact | oprow/core/canonical.py:233-292 | If decoding from o to e succeeds with v, then the bytes from o to e are the encoding of v |
| Canonical.ReencodeCheckNeverFires | oprow/core/canonical.py:309-315 | With or without the re-encode check loading gives the same result |
| Canonical.LoadsIffEncoding | oprow/core/canonical.py:295-316 | Loading accepts exactly the encodings of canonical values |
| Canonical.RoundTrip | oprow/core/canonical.py:98-122 | Every value, encoded and followed by any bytes, decodes to an equal value and the offset behind its encoding |
| Canonical.EncodingsEqualIffValuesEqual | oprow/core/canonical.py:98-122 | Two values have the same bytes exactly when they are equal up to the order of their dicts |
| Canonical.PrefixFree | oprow/core/canonical.py:98-122 | No encoding is a proper prefix of another |
| Canonical.InsertionOrderIrrelevant | oprow/core/canonical.py:115-121 | The bytes of a map do not depend on insertion order |
| Lex.LessIffFirstDifference | oprow/core/canonical.py:115-121 | Of two byte strings the smaller is a proper prefix of the other or has the smaller byte where they first differ |
| Crc.Crc16CcittFalse | oprow/watermark/crc.py:17-38 | The byte-fed loop is the bit-serial register started with 0xFFFF |
| Crc.KnownChecksums | oprow/watermark/crc.py:17-38 | The checksum of no data is 0xFFFF, that of the letter A is 0xB915 |
| Crc.ShiftInjective | oprow/watermark/crc.py:33-37 | One shift step is injective on registers |
| Crc.ShiftParity | oprow/watermark/crc.py:33-37 | One shift step keeps the bit parity of the register |
| Crc.RegisterLinear | oprow/watermark/crc.py:30-38 | The register is linear in its start and its input |
| Crc.CheckedIffZero | oprow/watermark/crc.py:17-38 | The CRC of data followed by the two bytes of c is 0 exactly when c is the CRC of the data |
| Crc.AcceptedIffPatternVanishes | oprow/watermark/crc.py:17-38 | A damaged message is accepted exactly when the register maps the error pattern to 0 |
| Crc.BurstNeverVanishes | oprow/watermark/crc.py:17-38 | No non-zero pattern within 16 consecutive bits vanishes, at any length |
| Crc.PairNeverVanishes | oprow/watermark/crc.py:17-38 | Two set bits fewer than 40 places apart do not vanish, at any length |
| Crc.RegisterParity | oprow/watermark/crc.py:17-38 | The parity of the register is the parity of what was fed |
| Crc.DamageDetected | oprow/watermark/crc.py:17-38 | Every odd-weight pattern, every two flips fewer than 40 places apart and every burst of at most 16 bits over data and CRC is detected |
| Ecc.RepetitionCode.Encode | oprow/watermark/ecc.py:66-72 | Carrier position j * r + t carries bit j |
| Ecc.RepetitionCode.Decode | oprow/watermark/ecc.py:74-104 | One bit per whole group, held by more than half of it; the number of groups that hold both bits; and for every group the margin of the vote divided by the repetitions, which is 1 for unanimous groups only |
| Ecc.ShiftedCarries | oprow/watermark/ecc.py:60-104 | Behind s = a * r + m junk bits every frame bit is carried by the group a or a + 1 further on, whichever overlaps it by more than half |
| Ecc.NoisyCarries | oprow/watermark/ecc.py:66-104 | Flips in fewer than half of a group leave its bit carried |
| Payload.PreambleUnbordered | oprow/watermark/payload.py:66 | The preamble overlaps no shifted copy of itself |
| Payload.PreambleIsText | oprow/watermark/payload.py:66 | The preamble is the ASCII text OPRW, most significant bits first |
| Payload.FrameCodec.EncodePayloadBits | oprow/watermark/payload.py:296-303 | Fails exactly for payloads of 2^16 bits or more; otherwise repeats preamble, length and payload |
| Payload.FrameCodec.DecodePayloadBits | oprow/watermark/payload.py:310-336 | It succeeds if and only if the first preamble of the decoded bits begins at 0 or no later than `max_preamble_scan_bits` and is followed by 16 length bits and as many bits as they announce; then the offset is that of this preamble, the payload exactly these bits, and the repetition report is about this carrier |
| Payload.Resynchronises | oprow/watermark/payload.py:296-336 | Leading junk of a * r + m bits and any trailing bits: decoding returns exactly the payload at offset a or a + 1, up to offset 31 whatever the junk, and up to the scan limit when no full preamble is decoded before it |
| Payload.FrameSurvivesNoise | oprow/watermark/payload.py:296-336 | Flips in fewer than half of each carrier group leave the frame intact, whatever follows it |
| Payload.PayloadRoundTrip | oprow/watermark/payload.py:147-151 | Decoding returns the payload that was encoded, for all four pointer modes |
| Payload.PayloadLayout | oprow/watermark/payload.py:112-151 | Where an encoded payload holds version, algorithm id, extra flags plus mode code, pointer bytes, and the CRC-16 of everything before it |
| Payload.PayloadExact | oprow/watermark/payload.py:219-259 | An accepted bit string of exact length is the encoding of the payload returned |
| Payload.PayloadBijection | oprow/watermark/payload.py:112-259 | The codec is a bijection between valid payloads with correct CRC and accepted bit strings of exact length |
| BitLists.FromInt | oprow/watermark/bits.py:53-69 | Exactly the numbers that fit have bits, and the bits denote the number |
| BitLists.ToInt | oprow/watermark/bits.py:72-78 | The loop computes the number whose bits these are |
| BitLists.FromBytes | oprow/watermark/bits.py:81-87 | The bits of bytes pack back to the bytes |
| BitLists.ToBytes | oprow/watermark/bits.py:90-109 | Unaligned input raises unless padded; unpacking gives the bits followed by zeros only |
| Digits.BytesBitsRoundTrip | oprow/watermark/bits.py:81-109 | Packing the bits of bytes gives the bytes back |
| Qim.RoundHalfEven | oprow/watermark/image_qim.py:80 | Nearest integer, halves to the even one |
| Qim.EmbedNearest | oprow/watermark/image_qim.py:74-94 | For every value, bit and positive delta: the embedded multiple of delta has the parity of the bit, lies within delta of the value, and is nearer than every other multiple of that parity, ties going away from zero |
| Qim.ExtractRegions | oprow/watermark/image_qim.py:97-100 | A bit is read exactly when some multiple of delta with its parity is nearer than delta/2, or at exactly delta/2 for a 0 |
| Qim.SurvivesIff | oprow/watermark/image_qim.py:74-100 | An embedded bit survives a perturbation exactly when the perturbation stays in the region of an even multiple of delta |
| Qim.SmallDrift | oprow/watermark/image_qim.py:74-100 | Up to delta/2 the bit survives exactly when the perturbation is below delta/2 or the bit is 0 |
| Qim.RobustProfile.EmbedBlock | openwater_mk/watermark_robust.py:157-161 | Every selected coefficient is embedded and no other coefficient changes |
| Qim.RobustProfile.ExtractBlock | openwater_mk/watermark_robust.py:204-217 | The majority of the bits read from the selected coefficients, ties giving 0 |
| Qim.VoteSurvivesIff | openwater_mk/watermark_robust.py:209-217 | The bit of a block survives exactly when fewer than half of its coefficients, for a 0 at most half, drift out of the regions in which they read as that bit |
| Qim.PayloadSurvives | openwater_mk/watermark_robust.py:191-219 | While every repetition group keeps more than half of its blocks and a kept block its vote, the framed payload comes back, whatever the blocks beyond the frame hold |
| RouteIndex.HexOrder | oprow/core/identifiers.py:73-74 | Hex text sorts as the bytes do, and determines them |
| RouteIndex.HexDigits | oprow/core/identifiers.py:73-74 | The digits are 0 to 9 and a to f |
| RouteIndex.PlainIndex.constructor | oprow/hdc/index.py:87-89 | An index without buckets |
| RouteIndex.PlainIndex.AddReference | oprow/hdc/index.py:91-95 | Appends to the bucket of every token unless the bucket has a reference of equal key |
| RouteIndex.BucketHolds | oprow/hdc/index.py:91-95 | After any history the bucket of a token holds, for every key, exactly the reference that was added first under the token with that key |
| RouteIndex.BucketGrows | oprow/hdc/index.py:91-95 | A longer history only appends to a bucket |
| RouteIndex.PlainIndex.Lookup | oprow/hdc/index.py:145-170 | The tally of all tokens in order, repeated ones included, sorted by falling hits and then by key |
| RouteIndex.KeyIffIdentity | oprow/hdc/index.py:173-180 | In either index two references have the same deduplication key if and only if they are known by the same: by manifest key, in the authenticated index then by manifest hash, then by the digest of the document, then by short id |
| RouteIndex.PlainIndex.LookupTokens | oprow/hdc/index.py:251-290 | Fails exactly for thresholds below 1. Otherwise there is a list that ranks of every key hit the first reference, if it passes the query and the key is hit often enough, by falling hits and then by key, and the answer is that list, or its first `max_results` elements and marked incomplete when it is longer, with its length as total, and with the short id asked for, else that of the first reference, else zeros |
| RouteIndex.PlainAnswerRanks | oprow/hdc/index.py:145-276 | For any buckets, tokens and queries: the plain answer is the capped form of the list that ranks of every key the first reference seen, if it passes the query and the key is hit often enough, by falling hits and then by key |
| RouteIndex.TallyAllExact | oprow/hdc/index.py:150-157 | For any references: a tally counts every key with the number of passing references hit under it, repeated tokens included, and keeps the first of them |
| RouteIndex.CountsPositions | oprow/hdc/index.py:150-157 | The hits of a key are the positions of passing references with it |
| RouteIndex.FirstStandsFirst | oprow/hdc/index.py:150-157 | The reference kept for a key is the one at the first of these positions |
| RouteIndex.ReportCaps | oprow/hdc/index.py:273-290 | A result is the answer made from a full ranking if and only if it has its prefix of the right length, negative caps read as a slice does, its length as total, the complete flag unless something was cut, and the short id as stated |
| Ranking.PartsLessIffFirstDifference | oprow/hdc/index.py:157 | Tuples are ordered by the first part in which they differ |
| RouteIndex.ReplaysAgree | oprow/authmap/short64_hv.py:294-300 | The same history of references with manifest keys leads both indices to the same buckets |
| RouteIndex.AuthenticatedAnswerRanks | oprow/authmap/short64_hv.py:417-442 | The authenticated answer is the capped form of a list that ranks of every key the first passing reference, if the key is hit often enough by passing ones, by falling hits and then by the tuple, although it reads sorted buckets, filters first and ranks last; only references without a manifest key can tie |
| RouteIndex.TieBreaksAgree | oprow/authmap/short64_hv.py:85-89 | Tuple and key text order two references with different manifest keys alike exactly when the smaller key does not go with the larger short id |
| RouteIndex.RankingsAgree | oprow/authmap/short64_hv.py:433-438 | Where equal manifest keys go with equal short ids and namespaces, and no listed reference with a smaller manifest key has a larger short id, the two indices rank the same list |
| RouteIndex.LookupsAgree | oprow/authmap/short64_hv.py:464-481 | After the same history of references with manifest keys, equal keys going with equal short ids and namespaces, a lookup with a short id answers with the identical references (metadata compared after conversion), complete flag and total in both indices, for all tokens, namespaces, thresholds and caps |
| RouteIndex.WithoutShortIdOrderDiffers | oprow/authmap/short64_hv.py:437-438 | A history of two references with registry-assigned short ids after which the two indices answer the same tokens in opposite orders |
| RouteIndex.AgreeIffAligned | oprow/authmap/short64_hv.py:417-442 | After any history of references with manifest keys: all lookups, with a short id or without, are answered alike if and only if equal manifest keys go with equal short ids and namespaces and no held reference with a smaller manifest key has a larger short id |
| RouteIndex.ShortIdAgreeIff | oprow/authmap/short64_hv.py:417-442 | After any history of references with manifest keys: all lookups with a short id are answered alike if and only if equal manifest keys go with equal short ids and namespaces |
| RouteIndex.InvertedDiffer | oprow/authmap/short64_hv.py:437-438 | Where equal keys go with equal short ids and namespaces: for any two held references whose short ids run against their manifest keys, tokens of one or two of their buckets get different answers |
| RouteIndex.InconsistentDiffer | oprow/authmap/short64_hv.py:418-431 | For any two held references with one manifest key but different short ids or namespaces, a query with a short id and the tokens of their two buckets gets different answers |
| RouteIndex.TwoNamespacesDiffer | oprow/authmap/short64_hv.py:418-431 | One manifest added under two namespaces with different tokens: asked for the second namespace, the plain index answers nothing and the authenticated index the second reference |
| Candidates.SortedReferencesPermute | oprow/authmap/short64_hv.py:115-116 | Sorting references permutes them, and a second sort changes nothing |
| Candidates.SortedReferencesInOrder | oprow/authmap/short64_hv.py:115-116 | No sorted reference comes before one with a smaller tuple |
| Candidates.SortKeyOrder | oprow/authmap/short64_hv.py:85-89 | The tuple orders by short id, then by manifest key, and references of one manifest by namespace and then by derivation |
| Candidates.CandidateSetRoundTrip | oprow/authmap/short64_hv.py:118-134 | The stored bytes of a candidate set decode if and only if every storage hint has a type and a location, and then to the set with its references sorted, which has the same bytes |
| Candidates.SetDefaults | oprow/authmap/short64_hv.py:500-516 | What a set written elsewhere decodes to where fields are missing, or flags stand for numbers |
| Candidates.TruthyIff | oprow/authmap/short64_hv.py:513-515 | False are exactly none, false, zero and what is empty |
| Candidates.CandidateSetInjective | oprow/authmap/short64_hv.py:115-129 | The stored bytes determine the set up to the order of its references, whether they decode or not |
| AuthenticatedIndex.Index.constructor | oprow/authmap/short64_hv.py:276-292 | An empty index with nothing built |
| AuthenticatedIndex.Index.AddReference | oprow/authmap/short64_hv.py:294-300 | The buckets grow as in the plain index, and the built snapshot is dropped |
| AuthenticatedIndex.BuildEntries | oprow/authmap/short64_hv.py:364-371 | The map entries are the canonical bytes of the complete candidate set of exactly the buckets |
| AuthenticatedIndex.Index.EnsureBuilt | oprow/authmap/short64_hv.py:361-381 | The snapshot commits to the current buckets; it fails exactly when a set has no encoding |
| AuthenticatedIndex.Index.OpenRouteKey | oprow/authmap/short64_hv.py:388-399 | Fails exactly when some set has no encoding or a reference of the bucket has a hint without type or location; otherwise the opening verifies, so that the fail-fast check cannot fire, and shows either that there is no bucket or exactly its references, in tuple order, marked complete, with their number as total |
| AuthenticatedIndex.VerifyOpening | oprow/authmap/short64_hv.py:201-207 | True exactly when the proof and the candidate set are for the route key and the proof is accepted for the bytes of the set, or for absence |
| AuthenticatedIndex.Index.LookupAuthenticated | oprow/authmap/short64_hv.py:401-462 | Succeeds exactly when the threshold is positive, every set has an encoding and the buckets asked for have only hints with a type and a location. Then every opening verifies against one root and shows the complete sorted bucket of its token, and the answer is the ranking of the passing hits, or its first `max_results` elements and marked incomplete when it is longer, with its length as total |
| AuthenticatedIndex.Index.LookupTokens | oprow/authmap/short64_hv.py:464-481 | The same ranking, cap and failures in the plain form, with the short id asked for, else that of the first reference, else zeros |
| AuthenticatedIndex.ForgedBucketCollision | oprow/authmap/short64_hv.py:201-207 | An opening that verifies against the root of the index but does not show the complete bucket yields a hash collision |
| AuthenticatedIndex.ShortIdResultsAgree | oprow/authmap/short64_hv.py:464-481 | Lookup by lookup, after the same history of references with manifest keys, equal keys going with equal short ids and namespaces: a lookup with a short id returns the same result in both indices (metadata compared after conversion) if and only if both refuse the threshold, or every set has an encoding and the buckets asked for have only hints with a type and a location |
| AuthenticatedIndex.ShortIdResultsAgreeIff | oprow/authmap/short64_hv.py:401-481 | After any history of references with manifest keys: all lookups with a short id return the same result in both indices if and only if every set has an encoding, every hint has a type and a location, and equal manifest keys go with equal short ids and namespaces |
| AuthenticatedIndex.AllResultsAgree | oprow/authmap/short64_hv.py:401-481 | After any history of references with manifest keys: every lookup, with a short id or without, returns the same result in both indices if and only if, beyond that, no held reference with a smaller manifest key has a larger short id |
| AuthenticatedIndex.UnreadableHintRaises | oprow/authmap/short64_hv.py:388-391 | One derived reference with a hint of empty type: its set has an encoding and the plain index answers with it, while every authenticated lookup of its token fails |
| RouteIndex.DerivedAgreeIff | oprow/short64/models.py:118-142 | After any history of references whose short id and manifest key are the first 8 and 20 bytes of one digest the two indices answer every lookup alike, with a short id or without, if and only if no manifest key is held under two namespaces |
| References.ReferenceRoundTrip | oprow/short64/models.py:144-237 | A reference written into a candidate set reads back as itself, its metadata compared after conversion, if and only if each of its hints has a type and a location, and is refused otherwise |
| References.ReferenceAccepted | oprow/short64/models.py:215-237 | A map is accepted as a reference exactly when every field reads, the short id has eight bytes, the derivation is one of the two, and there is a document, a manifest key or a hint |
| Schema.BytesOfIff | oprow/core/identifiers.py:42-46 | What reads as which bytes where an identifier is expected: bytes themselves, a number as that many zeros, a flag, a list of numbers below 256 or flags, and an empty map |
| Schema.FieldSurvives | oprow/core/models.py:33-35 | A field of a record, given as the primitive it converts to, reads back as its canonical value, and as nothing when it was dropped as absent; claim bodies, whose fields may be other objects, are dropped before conversion (Manifest.ClaimSame) |
| Manifest.MadeSigned | oprow/core/models.py:242-248 | The constructor keeps the signatures and sorts them once and for all |
| Manifest.MadeAscending | oprow/core/models.py:242-248 | The constructor refuses an empty list and signatures without an encoding; otherwise no signature has smaller canonical bytes than one before it |
| Documents.EnvelopeMade | oprow/core/models.py:330-335 | An envelope is constructed exactly when a full locator holds the 160-bit hash of the canonical bytes of the manifest, a short one with hash-derived pointer their truncated hash, and any other short one whatever it holds |
| Manifest.SignatureOrderIrrelevant | oprow/core/models.py:242-248 | The order in which signatures are supplied reaches neither the manifest nor its bytes |
| Manifest.SignatureInjective | oprow/core/models.py:188-190 | A signature record is determined by its canonical bytes |
| Manifest.CoreSame | oprow/core/models.py:210-214 | What a core comes back as is written as before, although absent parts are gone, if and only if no claim has an entry that the drop keeps and the conversion empties |
| Documents.ConstructedDocument | oprow/core/models.py:330-335 | A constructed envelope decodes if and only if no required text is empty and, where a claim has such an entry, its locator is not checked or the two byte strings have the same pointer |
| WireFields.RegionWritten | oprow/core/models.py:78-79 | Which field a region commitment writes under which name; absent fields are left out |
| WireFields.ArtifactWritten | oprow/core/models.py:99-110 | The same for artifact bindings |
| WireFields.ClaimWritten | oprow/core/models.py:125-126 | A claim writes its type and then the entries of its body that are something, converted |
| WireFields.SignatureWritten | oprow/core/models.py:188-190 | Which field a signature record writes under which name |
| WireFields.CoreWritten | oprow/core/models.py:210-211 | The same for manifest cores |
| WireFields.ManifestWritten | oprow/core/models.py:250-251 | A signed manifest writes its core and its signatures, and leaves neither out |
| WireFields.LocatorWritten | oprow/core/models.py:293-294 | A locator writes its mode by name |
| WireFields.HintWritten | oprow/core/models.py:305-307 | Which field a storage hint writes under which name |
| WireFields.EvidenceWritten | oprow/core/models.py:316-318 | Trust evidence writes type and body, and leaves neither out |
| WireFields.EnvelopeWritten | oprow/core/models.py:341-342 | Which field an envelope writes under which name |
| WireFields.ReferenceWritten | oprow/short64/models.py:144-155 | Which field a reference writes under which name |
| WireFields.SetWritten | oprow/authmap/short64_hv.py:118-126 | A candidate set writes its references in sorted order |
| Objects.MaskedIff | oprow/core/models.py:33-35 | The objects that the drop keeps although they convert to an absent value are exactly the empty tuples and the objects whose own canonical form is absent |
| Manifest.ClaimSame | oprow/core/models.py:114-126 | A claim that comes back is written as before if and only if its body has no such entry |
| Manifest.RegionRoundTrip | oprow/manifest/codec.py:123-130 | A region commitment reads back as itself if and only if its ids are not empty, and is refused otherwise |
| Manifest.ArtifactRoundTrip | oprow/manifest/codec.py:133-152 | An artifact binding reads back as itself, up to an empty container for a watermark id, if and only if its required texts are not empty |
| Received.MissingFields | oprow/manifest/codec.py:133-212 | A missing hash algorithm stands for sha256, a missing derivation profile for hash_truncated |
| Manifest.ClaimRoundTrip | oprow/manifest/codec.py:155-159 | Popping the type off a written claim leaves the dropped, converted and canonically ordered body |
| Manifest.SignatureRoundTrip | oprow/manifest/codec.py:162-173 | A signature record reads back as itself if and only if algorithm and role are not empty, and is refused otherwise |
| Manifest.CoreRoundTrip | oprow/manifest/codec.py:176-186 | A manifest core reads back, up to absent parts, if and only if the required texts of its artifact are not empty |
| Documents.LocatorRoundTrip | oprow/manifest/codec.py:197-212 | A locator reads back as itself, up to an empty container for a profile id, if and only if its derivation profile is not empty |
| Hints.HintRoundTrip | oprow/manifest/codec.py:215-222 | A storage hint reads back as itself if and only if it has a type and a location, and is refused otherwise |
| Hints.EvidenceRoundTrip | oprow/manifest/codec.py:225-230 | Trust evidence reads back as itself, an empty body included, if and only if it has a type, and is refused otherwise |
| Manifest.CodecKeepsAddressedBytes | oprow/manifest/codec.py:189-257 | The canonical bytes of a signed manifest decode if and only if its required texts are not empty; what they decode to has the same bytes if and only if no claim has an entry that the drop keeps and the conversion empties, such as an empty tuple |
| Manifest.EmptyTupleChangesBytes | oprow/manifest/codec.py:298-302 | A manifest with the claim body {"x": ()} encodes and decodes, but to other bytes |
| Documents.BareDocument | oprow/manifest/codec.py:280-295 | A bare document decodes if and only if no required text is empty: to the bare envelope of the manifest that comes back, located by the hash of its bytes, which are the bytes of the document exactly when no claim has an entry that the drop keeps and the conversion empties |
| Documents.EnvelopedDocument | oprow/manifest/codec.py:233-295 | An enveloped document decodes if and only if no required text is empty, hints and evidence included, and the locator matches the bytes of the manifest that comes back |
| Documents.DocumentsNormalise | oprow/manifest/codec.py:280-295 | Bare or in an envelope, each exactly when it decodes, a manifest comes back as the same manifest, with the bytes it was addressed by if and only if no claim has an entry that the drop keeps and the conversion empties |
| Received.ReceivedDocument | oprow/manifest/codec.py:280-295 | Whatever bytes are accepted as a document, whoever wrote them: the envelope they decode to is well formed, has all required texts and a matching locator; if it has an encoding, decoding that gives an envelope whose manifest has the same canonical bytes, so the address no longer changes |
| Documents.EmptyTypeRaises | oprow/manifest/codec.py:225-230 | Whatever envelope evidence without a type is put into, the result is constructed and encodes but does not decode |
| Documents.SomeEnvelopeRaises | oprow/manifest/codec.py:225-230 | There is such an envelope: one is constructed and encodes, and with evidence of empty type no longer decodes |
| BitInts.ShrIsDivision | oprow/authmap/sparse_merkle.py:330-351 | A right shift is division by the power of two |

## Left out

- Image decoding and encoding, colour conversion, the DCT, clipping, and the shuffled block order: carriers start from a decoded pixel array, coefficients are exact reals instead of floats, and blocks are listed in carrier order.
- SHA-256, SHAKE and BLAKE3, signing and verifying: foreign calls. Hashes are parameters about which nothing is assumed.
- The hash stream of the sparse rows is a parameter; `Equations.Profile.Valid` assumes that it yields enough distinct positions, which the endless stream of the program does with overwhelming likelihood only.
- Text is its UTF-8 bytes and dates are their text: no Unicode handling, no parsing of dates, and no check that a key id is more than white space.
- Objects without a canonical form, such as floats, and debug JSON. `Objects` has one constructor for all objects with a canonical form of their own.
- Error messages, diagnostics, timestamps, metadata and the reference count of root records.
- The canonical forms of proofs, openings and whole maps, and reading them back.
- Coercions of wrongly typed fields that only foreign documents have: version numbers in text are refused.
- Unknown fields of foreign manifests: the decoder drops them, so the bytes of a foreign document need not be those of what it decodes to; from then on they stay (`Received.ReceivedDocument`).
- References.ReferenceRoundTrip: metadata is held as the primitives it converts to, so a tuple in it, which comes back as a list, counts as unchanged; the results about lookups compare references in the same way.
- References without a manifest key: the plain index tells them apart by Python's `hash` of a document, the authenticated one by manifest and document hashes; the agreement results are about references that have one.
- `add_manifest` of both indices: it derives a reference and tokens from media; references and tokens are arguments here.
- Short pointers made from a namespace and a registry-assigned id, file-backed snapshots, and the resolver built on the indices.
- ImageAlpha.Carrier.Embed: when a tile id outgrows the 16-bit record field the program raises half way; the contract then promises the colours only, not which tiles were written.
- The verification orchestrator, trust evaluator, C2PA mapping, privacy planner, resolvers, ledgers, web service and command line: status branching and plumbing that would add easy members.
- Hyperdimensional encoders and perceptual descriptors: statistical routing quality.
