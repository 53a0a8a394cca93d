# glb_tbn_gen: tangent-space batch and OBJ patcher

This project models the two working parts of `glb_tbn_gen`, the tool that adds per-face tangent
and binormal data to a Wavefront OBJ model file:

* **The batch extraction loop** `glb_calc_tangent_binormal_coordinates`. It walks the flat
  position buffer (9 floats per face) and texture-coordinate buffer (6 floats per face). For each
  face it appends one `TangentSpace` to the output vector. The per-triangle maths
  (`glb_calc_tangent_binormal`) is a function parameter `faceSpace`. A C float is an opaque
  type `Float`.
* **The document patcher** `glb_write_tangent_space`, without its file I/O. It takes the text
  already read from the file and returns the text to write back, or a `PatchError`. In order, it:
  * builds the `vtan`/`vbi` attribute block;
  * finds the last `vn`;
  * inserts the block after the first blank line that follows it;
  * finds the face section (the first `"\nf"`);
  * splices `/k/k` into every corner of face `k`;
  * inserts the `# Reorganize by glb_tbn_gen` trailer.

  The source mutates a `std::string` in place with repeated `insert` calls and `while (true)`
  cursor loops. The model keeps that shape: methods with loops over `seq<char>` (`string`),
  each proved equal to a specification function. The theorems are proved about those functions.
  A `char` of the model's `string` stands for one byte of the `std::string`. Positions, the `+3`
  skip and the trailer's `cursor + 1` therefore count bytes, as the source does. The model never
  relies on a character's range, so the file's encoding does not matter.

Modules:

| module | file | contents |
|---|---|---|
| `Results` | `results.dfy` | `Option`, `Result` and `PatchError` (`EmptyInput`, `MalformedDocument`). |
| `Decimal` | `decimal.dfy` | `%d` of a natural number (`Dec`) and reading it back (`ValueOf`). |
| `Geometry`, `TangentBatch` | `tangent_batch.dfy` | The values the tool computes with, and the batch loop. |
| `TextScan`, `FaceFree` | `text_scan.dfy` | `std::string::find` of a two-character marker, and the three cursor scans. |
| `Edits` | `edits.dfy` | `std::string::insert`, and logs of insertions that can be applied and undone. |
| `Attributes` | `attribute_block.dfy` | The `vtan`/`vbi` records and their count comments. |
| `TangentPatch` | `tangent_patch.dfy` | Corner and face splicing, the face loop, the trailer, and the whole patch. |
| `FaceLayout` | `face_layout.dfy` | The result of the patch on a well-formed face section, stated exactly. |
| `InsertOnly` | `insert_only.dfy` | Every successful patch is the text it read plus a log of insertions, in order. |
| `CornerTags` | `corner_tags.dfy` | The tag spliced into a corner reads back as the face number. |

The well-formed layout (`FaceLayout.WellFormedText`) is the face section the splicing code is
written for:
* a head that holds no `"\nf"`;
* a newline;
* one line `f c0 c1 c2 \n` per face, with a space after each corner including the last;
* any tail.

The text must also have a blank line after the last `vn`, anywhere. Face lines hold no blank
line (`FaceLayout.BlankLineOutsideFaces`), so the block goes in one of three places:
* inside the head;
* right after the newline in front of the first face line, when the faces follow the blank line
  directly (`vn ...\n\nf ...`);
* into the tail, when the first blank line comes after the faces (`vn ...\nf ...\n\n`).

The splicing code relies on the face lines' shape through the `+3` skip of `"\nf "` and the cursor left one past each corner's
space. The model does not require this layout of its inputs. It handles every text the way the
code does, and states what comes out when the layout holds.

Where the source reads past the end of the string, the model returns `Failure(MalformedDocument)`:
* the blank-line scan (lines 316-324), which never checks the length;
* the corner scans (lines 346-394), which never check the length either;
* a trailer position past the end, where `std::string::insert` would throw.

When there is no `vn` at all, the code does not fail: it starts the blank-line scan from 0, and
the model does the same. When there is no `"\nf"`, the face cursor stops at the last character,
as in the code. The first corner scan then runs off the end, and the model fails there.

## Model

Paths are relative to the repository root.

| member | source | states |
|---|---|---|
| TangentBatch.CalcTangentBinormalCoordinates | glbcodebase/graphicslab_gl/glb_tbn_gen/glb_tbn_gen.cpp:179-209 | The result is false exactly when a buffer is null, and then nothing is appended. Otherwise exactly `face_num` entries are appended after the existing ones, which are kept. Entry `i` is `faceSpace` of face `i`'s triangle, in increasing `i`. |
| TangentBatch.FaceTriangle | glbcodebase/graphicslab_gl/glb_tbn_gen/glb_tbn_gen.cpp:187-202 | Component `k` of corner `c` of face `i` is read from offset `9i+3c+k` of the position buffer and `6i+2c+k` of the texture-coordinate buffer, and from nowhere else. |
| Decimal.Dec | glbcodebase/graphicslab_gl/glb_tbn_gen/glb_tbn_gen.cpp:348-350 | `%d` of a natural number is at least one digit, only digits, and has no leading zero unless the number is 0. |
| Decimal.ValueOfDec | glbcodebase/graphicslab_gl/glb_tbn_gen/glb_tbn_gen.cpp:348-350 | Reading the printed number back gives the number. |
| Decimal.DecInjective | glbcodebase/graphicslab_gl/glb_tbn_gen/glb_tbn_gen.cpp:348-350 | Different face numbers print differently. |
| Attributes.Records | glbcodebase/graphicslab_gl/glb_tbn_gen/glb_tbn_gen.cpp:255-272 | The records of a vector list are empty exactly when the list is, and otherwise end with a newline. |
| Attributes.CountComment | glbcodebase/graphicslab_gl/glb_tbn_gen/glb_tbn_gen.cpp:273-275 | The count comment starts with `# `, then digits that read back as the count, then a space, and ends with a blank line. |
| Attributes.AttributeBlock | glbcodebase/graphicslab_gl/glb_tbn_gen/glb_tbn_gen.cpp:252-303 | The block ends with a blank line. |
| Attributes.BuildRecords | glbcodebase/graphicslab_gl/glb_tbn_gen/glb_tbn_gen.cpp:255-272 | The `+=` loop builds one `tag x y z\n` record per vector, in order (the `Records` function). |
| Attributes.BuildAttributeBlock | glbcodebase/graphicslab_gl/glb_tbn_gen/glb_tbn_gen.cpp:252-303 | The block is the `vtan` records, `# N tangents (Gen by glb_tbn_gen)\n\n`, the `vbi` records, then `# N binormals (Gen by glb_tbn_gen)\n\n`. |
| Attributes.RecordsAppend | glbcodebase/graphicslab_gl/glb_tbn_gen/glb_tbn_gen.cpp:256-272 | The records of a concatenation are the records of each part, in order. |
| Attributes.RecordOfEntry | glbcodebase/graphicslab_gl/glb_tbn_gen/glb_tbn_gen.cpp:256-272 | Entry `i`'s record line stands between the records of the entries before it and those after it. |
| Attributes.AttributeBlockLineCount | glbcodebase/graphicslab_gl/glb_tbn_gen/glb_tbn_gen.cpp:254-303 | With a newline-free `%f`, the block holds exactly `2N + 4` newlines. |
| Attributes.AttributeBlockFaceFree | glbcodebase/graphicslab_gl/glb_tbn_gen/glb_tbn_gen.cpp:254-303 | With a newline-free `%f`, no line of the block starts with `f`, the block does not start with `f`, and it ends with a newline. Inserted after a newline, it therefore holds no face start, and it can only end the part in front of the face lines. |
| TextScan.FindPair | glbcodebase/graphicslab_gl/glb_tbn_gen/glb_tbn_gen.cpp:308-309 | `find` of a two-character marker gives the first position at or after the start where it stands, or -1 when there is none. |
| TextScan.FindChar | glbcodebase/graphicslab_gl/glb_tbn_gen/glb_tbn_gen.cpp:346-358 | A corner loop's search for the next space gives the first space at or after the cursor, or -1 when none is left. |
| TextScan.NormalCursor | glbcodebase/graphicslab_gl/glb_tbn_gen/glb_tbn_gen.cpp:306-314 | The cursor is two past the start of the last `vn` in the text, or 0 when there is none. |
| TextScan.ScanLastNormal | glbcodebase/graphicslab_gl/glb_tbn_gen/glb_tbn_gen.cpp:306-314 | The `vn` loop terminates, since its search start strictly increases, and leaves the cursor at `NormalCursor`. |
| TextScan.BlankLineEnd | glbcodebase/graphicslab_gl/glb_tbn_gen/glb_tbn_gen.cpp:316-324 | This is the position just past the first `"\n\n"` at or after the cursor. It is None exactly when there is no such pair. |
| TextScan.ScanBlankLine | glbcodebase/graphicslab_gl/glb_tbn_gen/glb_tbn_gen.cpp:316-324 | The character-by-character loop computes `BlankLineEnd`, and stops at the end of the text instead of reading past it. |
| TextScan.FaceSectionStart | glbcodebase/graphicslab_gl/glb_tbn_gen/glb_tbn_gen.cpp:329-340 | This is the smallest `p` with `"\nf"` at `p`. When there is none, it is the last index (0 for an empty text). |
| TextScan.ScanFaceStart | glbcodebase/graphicslab_gl/glb_tbn_gen/glb_tbn_gen.cpp:329-340 | The face-start loop computes `FaceSectionStart`. |
| Edits.Insert | glbcodebase/graphicslab_gl/glb_tbn_gen/glb_tbn_gen.cpp:326 | `std::string::insert` grows the text by exactly the fragment's length. |
| Edits.InsertMeaning | glbcodebase/graphicslab_gl/glb_tbn_gen/glb_tbn_gen.cpp:326 | After inserting the block, the text before the insertion point and the text after the block are unchanged. |
| Edits.UndoApply | glbcodebase/graphicslab_gl/glb_tbn_gen/glb_tbn_gen.cpp:342-398 | Deleting the fragments of a log of insertions, the last first, recovers the original text. |
| TangentPatch.Tag | glbcodebase/graphicslab_gl/glb_tbn_gen/glb_tbn_gen.cpp:348-354 | The `/k/k` fragment is `2 + 2*len(dec(k))` characters long and holds no space and no newline. |
| TangentPatch.TagInserts | glbcodebase/graphicslab_gl/glb_tbn_gen/glb_tbn_gen.cpp:351-354 | The four inserts (`/`, the number, `/`, the number) put `Tag(k)` at the space's position. |
| TangentPatch.CornerSpliceMeaning | glbcodebase/graphicslab_gl/glb_tbn_gen/glb_tbn_gen.cpp:346-360 | A corner splice fails exactly when no space is left after the cursor. Otherwise `Tag(k)` stands right before the first such space and nothing else changes. The text grows by `2 + 2*len(dec(k))`, and the cursor ends one past that space. |
| TangentPatch.CornerSplice | glbcodebase/graphicslab_gl/glb_tbn_gen/glb_tbn_gen.cpp:346-360 | A corner splice either fails with MalformedDocument, or grows the text by one tag and leaves the cursor inside it. |
| TangentPatch.SpliceCorner | glbcodebase/graphicslab_gl/glb_tbn_gen/glb_tbn_gen.cpp:346-360 | The corner loop computes `CornerSplice`. |
| TangentPatch.SpliceFace | glbcodebase/graphicslab_gl/glb_tbn_gen/glb_tbn_gen.cpp:343-394 | One round of the face loop (the `+3` skip, then three corner loops) computes `FaceSplice`. |
| TangentPatch.FaceSplice | glbcodebase/graphicslab_gl/glb_tbn_gen/glb_tbn_gen.cpp:343-394 | A face splice either fails with MalformedDocument, or grows the text by three tags and leaves the cursor inside it. |
| FaceLayout.FaceSpliceMeaning | glbcodebase/graphicslab_gl/glb_tbn_gen/glb_tbn_gen.cpp:343-394 | After the `+3` skip, a face splice fails exactly when fewer than three spaces are left. Otherwise `Tag(k)` stands right before each of the first three spaces, nothing else changes, and the cursor ends one past the third. |
| TangentPatch.SpliceFaces | glbcodebase/graphicslab_gl/glb_tbn_gen/glb_tbn_gen.cpp:342-395 | The face loop either fails with MalformedDocument or grows the text by three tags per face. |
| TangentPatch.SpliceAllFaces | glbcodebase/graphicslab_gl/glb_tbn_gen/glb_tbn_gen.cpp:342-395 | The `for` loop over the faces computes `SpliceFaces` from the face section's start. |
| TangentPatch.BlockInsertionPoint | glbcodebase/graphicslab_gl/glb_tbn_gen/glb_tbn_gen.cpp:306-324 | The block goes just past the first `"\n\n"` at or after the cursor left by the `vn` scan. It is None exactly when no such pair exists. |
| TangentPatch.AppendTrailer | glbcodebase/graphicslab_gl/glb_tbn_gen/glb_tbn_gen.cpp:397-398 | The trailer goes one past the final cursor, growing the text by its length. A position past the end is MalformedDocument. |
| TangentPatch.Rewrite | glbcodebase/graphicslab_gl/glb_tbn_gen/glb_tbn_gen.cpp:305-398 | Without a blank line after the normals the rewrite fails. On success the text grows by exactly the block, three tags per face and the trailer. |
| TangentPatch.RewriteText | glbcodebase/graphicslab_gl/glb_tbn_gen/glb_tbn_gen.cpp:305-398 | The scans and inserts on the text compute `Rewrite`. |
| TangentPatch.Patch | glbcodebase/graphicslab_gl/glb_tbn_gen/glb_tbn_gen.cpp:225-230 | The patch is refused with EmptyInput exactly when there is no file or no tangent space. |
| TangentPatch.WriteTangentSpace | glbcodebase/graphicslab_gl/glb_tbn_gen/glb_tbn_gen.cpp:225-398 | `glb_write_tangent_space`, between reading and writing the file, computes `Patch`. |
| FaceLayout.TaggedFaces | glbcodebase/graphicslab_gl/glb_tbn_gen/glb_tbn_gen.cpp:342-394 | Face `j` of the list gets the tag of face number `k + j`, and there are as many tagged faces as faces. |
| FaceLayout.CornerStep | glbcodebase/graphicslab_gl/glb_tbn_gen/glb_tbn_gen.cpp:346-360 | On a corner token ended by a space, the splice appends `Tag(k)` to the token and leaves the cursor just past the space. |
| FaceLayout.FaceStep | glbcodebase/graphicslab_gl/glb_tbn_gen/glb_tbn_gen.cpp:343-394 | On a well-formed face line, one round tags its three corners and moves the cursor from the newline before the line to the newline after it. |
| FaceLayout.SpliceWellFormed | glbcodebase/graphicslab_gl/glb_tbn_gen/glb_tbn_gen.cpp:342-395 | Over consecutive well-formed face lines, the face loop tags every corner of face `i` with `i+1`, changes nothing else, and ends on the last line's newline. |
| FaceLayout.FaceSectionStartAt | glbcodebase/graphicslab_gl/glb_tbn_gen/glb_tbn_gen.cpp:329-340 | The face section starts right after a prefix that holds no `"\nf"`, when an `f` line follows it. |
| FaceLayout.BlankLineOutsideFaces | glbcodebase/graphicslab_gl/glb_tbn_gen/glb_tbn_gen.cpp:316-324 | On a text with face lines, the blank-line scan never ends inside them. It ends in the head, on the newline in front of the first face line, or at least one character into the tail. |
| FaceLayout.BlockPlaced | glbcodebase/graphicslab_gl/glb_tbn_gen/glb_tbn_gen.cpp:316-340 | When the blank line ends inside the head or on the newline in front of the faces, the block goes in front of the face lines. The face section then starts on the newline that ends the part in front of them. A block ending on the newline in front of the faces must end its own last line. |
| FaceLayout.RewriteWellFormed | glbcodebase/graphicslab_gl/glb_tbn_gen/glb_tbn_gen.cpp:305-398 | On a well-formed text the rewrite succeeds, and the blank line ends either in front of the face lines or at least one character into the tail. In the first case the result is exactly: the head and its newline with the block at the insertion point, the face lines with face `i` tagged `/i/i`, the trailer, then the tail. In the second it is: the head, its newline, the tagged face lines, the trailer, then the tail with the block at the insertion point. The tagged face lines are again well-formed face lines. |
| FaceLayout.PatchWellFormed | glbcodebase/graphicslab_gl/glb_tbn_gen/glb_tbn_gen.cpp:225-398 | End to end on a well-formed file with one tangent space per face, the patch succeeds. The output holds the tagged face lines, again well formed, followed by the trailer. The attribute block goes in front of the face lines or into the tail after the trailer, wherever the blank line after the last `vn` ends. One of the two always holds, and nothing else changes. |
| InsertOnly.CornerInsertion | glbcodebase/graphicslab_gl/glb_tbn_gen/glb_tbn_gen.cpp:351-354 | A successful corner splice is the single insertion of `Tag(k)`. |
| InsertOnly.FaceLog | glbcodebase/graphicslab_gl/glb_tbn_gen/glb_tbn_gen.cpp:343-394 | A successful face splice is three insertions, each of `Tag(k)`. |
| InsertOnly.SpliceLogApplies | glbcodebase/graphicslab_gl/glb_tbn_gen/glb_tbn_gen.cpp:342-395 | A successful face loop is a log of insertions: the tags of faces 1..n, three each, in order. |
| InsertOnly.RewriteInsertOnly | glbcodebase/graphicslab_gl/glb_tbn_gen/glb_tbn_gen.cpp:305-398 | A successful rewrite is its insertions: the block, then three tags per face, then the trailer. Taking them out of the result gives back the text that was read. |
| InsertOnly.PatchInsertOnly | glbcodebase/graphicslab_gl/glb_tbn_gen/glb_tbn_gen.cpp:225-398 | Whatever the patch writes back is the text it read plus the attribute block, the face tags and the trailer. Deleting them recovers the original. |
| CornerTags.UntagTag | glbcodebase/graphicslab_gl/glb_tbn_gen/glb_tbn_gen.cpp:348-354 | A corner tagged for face `k` reads back as tangent index `k` and binormal index `k`, and taking the tag off gives back the corner. |
| CornerTags.TagsDistinguishFaces | glbcodebase/graphicslab_gl/glb_tbn_gen/glb_tbn_gen.cpp:348-354 | Corners tagged for different faces never look alike. |

## Left out

- File reading (lines 233-250) is not modelled: the 256-character `getline` buffer, the newline added after every line, and the open failure. The model takes the text already read.
- File writing (lines 401-411) is not modelled either; the model returns the text to write.
- `main` (lines 72-144) is not part of this model: console output, `system("pause")`, and the external model-file extraction and release.
- `glb_check_args` (lines 146-177) is not part of this model: the path check and the copy into a fixed buffer.
- `glb_calc_tangent_binormal` (lines 211-223) is a function parameter. Its float arithmetic, division by a possibly zero determinant, and `Normalize` are outside the model.
- `%f` formatting of a vector component is a function parameter `fmt`. The line-count and face-free lemmas assume only that it prints no newline. The 64-character `temp` buffer and `sprintf` overflow are not modelled.
- The texture coordinate's `z` component is not modelled, since it is never set and never read.
- TangentBatch.CalcTangentBinormalCoordinates: `int32_t` overflow of `i * 3 * 3` and of `face_num` is not modelled. Integers are unbounded, and the buffers are required to hold `face_num` faces: in the source, a short buffer is an out-of-bounds read.
- TangentPatch.Rewrite: where the source reads past the end of the string or `insert` would throw, the model returns MalformedDocument. It does not model the undefined behaviour (the blank-line scan, the corner scans, and the trailer position).
- The `int32_t` cursors `last_normal_pos` and `face_pos` are unbounded naturals in the model. Their overflow on texts over 2 GiB is not modelled.
- The header files of the repository are declarations only and are not part of this model.
