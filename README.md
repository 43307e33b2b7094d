# Room photos, object images and the Tux controller LEDs

This project models two parts of an adventure game written in C.

The first part is `photo.c`.
- It reads object images and room photos from their files.
- It chooses a 192-colour palette for each room photo with a two-level octree.
  The 128 most frequent 4:4:4 colour buckets each get a slot.
  The other non-empty buckets are folded into 64 2:2:2 buckets, which fill the last 64 slots.
- It remaps every photo pixel to a palette index.
- It fills the horizontal and vertical line buffers the scrolling code draws from, with the photo under the room's objects.

The second part is `module/tuxctl-ioctl.c`, the Linux driver of the Tux controller.
- It turns a `TUX_SET_LED` argument into a six-byte LED packet through the seven-segment table of `determine_val`.
- It keeps at most one LED packet unacknowledged.
- It records the button byte of `MTCP_BIOC_EVENT` packets.
- It re-sends its state after `MTCP_RESET`.

Modules, in dependency order:

| file | module | models |
|---|---|---|
| wrappers.dfy | Wrappers | `Option` |
| photo_types.dfy | PhotoTypes | `photo_t`, `image_t`, header constants, grid offsets, the four accessors |
| pixel_bits.dfy | PixelBits | the 5:6:5 bit expressions of `read_photo` and `set_up_palette` |
| framing.dfy | Framing | bottom-up file rows to top-down memory rows; `read_obj_image` |
| fine_buckets.dfy | FineBuckets | `levelfour[]` after pass one, as a function of the pixels read |
| palette.dfy | Palette | `compare_function`, the sort, the coarse fold and the three loops of `set_up_palette` |
| remap.dfy | Remap | the two slot searches of pass two, and which slot each pixel gets |
| read_photo.dfy | ReadPhoto | `read_photo`: pass one, `set_up_palette`, pass two |
| compositor.dfy | Compositor | `fill_horiz_buffer` and `fill_vert_buffer` |
| seven_segment.dfy | SevenSegment | `determine_val` and its two sixteen-entry tables |
| tuxctl.dfy | Tuxctl | `tuxctl_ioctl`, `tuxctl_ioctl_tux_set_led`, `tuxctl_handle_packet`, as step functions and as a class over the driver's globals |

Modelling choices:
- A file is the header that was read (`None` when `fread` failed), followed by its pixels as a sequence.
  A file that ends early is a pixel sequence shorter than width × height.
- The functions of the game world are inputs: `room_photo` and `room_contents_iterate` become the photo and the object list passed in.
  `obj_get_x`, `obj_get_y` and `obj_image` become the fields of `Placed`.
- `tuxctl_ldisc_put` appends bytes to the `sent` field.
- `copy_to_user` is the `copied` result of `Ioctl`.
- `unsigned long` is 32 bits (`bv32`), as on the i386 kernel the driver targets.
- `uint16_t` sums are written out with explicit truncation where the C code assigns to them (`Truncate16`).

Three facts about the C code shape the palette model:
- `qsort` (photo.c:601) is not stable, so the model sorts with a selection sort. Every property is proved for any count-descending rearrangement, so nothing depends on the order of ties.
- Slots whose bucket is empty keep their previous colour (photo.c:605, 638): nothing zeroes them. `ReadPhoto` takes that previous palette as its `junk` input.
- A coarse counter counts the fine buckets folded into it, not their pixels (photo.c:632). Its sums add each folded bucket's averaged colour once (photo.c:629-631).

## Model

| member | source | states |
|---|---|---|
| PhotoTypes.ImageHeight | photo.c:277-279 | the height of a valid object image: its pixel count is width × result |
| PhotoTypes.ImageWidth | photo.c:290-292 | the width of a valid object image: its pixel count is result × height |
| PhotoTypes.PhotoHeight | photo.c:302-304 | the height of a valid photo: its pixel count is width × result |
| PhotoTypes.PhotoWidth | photo.c:315-317 | the width of a valid photo: its pixel count is result × height |
| PhotoTypes.GridIndexInRange | photo.c:406 | the offset `width*y + x` of an in-grid cell lies inside the `width*height` allocation |
| PhotoTypes.GridIndexInjective | photo.c:406 | distinct cells of a row-major grid have distinct offsets |
| PhotoTypes.GridOfIndex | photo.c:84-86 | every offset inside the grid is the offset of exactly the cell its quotient and remainder name |
| Framing.Unflip | photo.c:385-389 | the memory image from the file stream has width × height cells |
| Framing.UnflipIndex | photo.c:389-407 | memory cell (row, col) holds file cell (height-1-row, col) |
| Framing.UnflipUnique | photo.c:389-407 | an image agreeing with the mirrored file cell everywhere is the reordered image |
| Framing.UnflipTwice | photo.c:385-389 | reordering the rows twice gives back the file's pixels |
| Framing.UnflipRowStep | photo.c:389-407 | storing file row h-1-y at memory row y extends the reordered rows below it by one |
| Framing.ReadObject | photo.c:364-382 | an image results exactly when the header was read, fits MAX_OBJECT_WIDTH × MAX_OBJECT_HEIGHT and the file has width × height pixels; it keeps the header and is valid |
| Framing.CopyRow | photo.c:392-407 | the inner loop copies the w bytes of the file row; it fails exactly when the file ends inside the row; other cells are unchanged |
| Framing.ReadObjRow | photo.c:389-407 | one outer iteration adds the next row on top of the rows already reordered, or fails exactly when the file ends |
| Framing.ReadObjImage | photo.c:352-413 | the loops of read_obj_image return exactly ReadObject of the header and the file |
| PixelBits.ContributionsAreChannels | photo.c:513-515 | the three sums added per pixel are 2×red5, green6 and 2×blue5 |
| PixelBits.FineKeyIsTopBits | photo.c:510 | the fine bucket index is the top four bits of each channel scaled to 6 bits, below 4096 |
| PixelBits.CoarseIndexIsTopBits | photo.c:627 | the coarse index is the top two bits of each channel scaled to 6 bits, below 64 |
| PixelBits.Pixel2Channels | photo.c:626 | packing channels that fit 5, 6 and 5 bits into pixel2 loses none of them |
| PixelBits.FineMatchIffSameKey | photo.c:554 | the fine-tier comparison holds exactly when the palette colour's fine key is the pixel's bucket index |
| PixelBits.CoarseMatchIffSameKey | photo.c:564 | the coarse-tier comparison holds exactly when the palette colour's coarse key is the pixel's coarse index |
| FineBuckets.FineTableStep | photo.c:509-516 | reading one more pixel changes only the bucket of its key, by that pixel's contributions and one count |
| FineBuckets.TotalCountUpdate | photo.c:516 | replacing one bucket changes the total count by the difference of the two counters |
| FineBuckets.FineTableCountsPixels | photo.c:516 | after pass one the counters add up to the number of pixels read |
| FineBuckets.FineBucketBanded | photo.c:509-516 | every fine bucket only ever holds pixels of its own key: each sum lies between count × digit-band bounds |
| FineBuckets.AddPixelBanded | photo.c:513-516 | adding a pixel to the bucket of its own key keeps the bucket in its bands |
| FineBuckets.PixelBucketNonEmpty | photo.c:516 | the bucket of any pixel that was read is non-empty |
| Palette.CompareFunction | photo.c:653-655 | negative exactly when a holds more pixels, zero exactly on equal counts: qsort orders by count, descending |
| Palette.SwapKeepsPermutation | photo.c:601 | exchanging two positions keeps the table a rearrangement of the original, with the index maps updated |
| Palette.SortBuckets | photo.c:601 | the buckets end up in count-descending order and are a rearrangement of the original table |
| Palette.SelectFullest | photo.c:601 | one round moves a fullest remaining bucket to position i and keeps the rearrangement |
| Palette.FullestFrom | photo.c:601 | returns the position of a bucket at least as full as every bucket from lo on |
| Palette.SettledIsSorted | photo.c:601 | a fully settled table is in compare_function order |
| Palette.AverageInBand | photo.c:606-608 | the average of n values in a band lies in that band |
| Palette.AverageKeepsFineKey | photo.c:604-610 | a fine slot's averaged colour is 6-bit and has its bucket's fine key |
| Palette.ResidueChannels | photo.c:618-624 | without wrap, red_average, green_average and blue_average lie in the halved digit bands of the bucket's key |
| Palette.ResidueKeepsCoarseKey | photo.c:615-627 | without wrap, pixel2 of a folded bucket has the coarse index of the bucket's own key |
| Palette.PixelCoarseKey | photo.c:509-627 | a pixel's coarse index is the coarse index of its fine key |
| Palette.CoarseTableStep | photo.c:615-634 | folding one more sorted bucket changes only the coarse bucket of its pixel2 |
| Palette.CoarseTableBanded | photo.c:615-634 | each coarse bucket only receives colours of its own coarse index, whatever the sums |
| Palette.AddKeepsCoarseBand | photo.c:629-632 | adding pixel2 to the coarse bucket of its index keeps that bucket in its bands |
| Palette.CoarseCountsBuckets | photo.c:632 | the coarse counters add up to the number of non-empty buckets folded, not their pixels |
| Palette.CoarseReceives | photo.c:616-632 | a non-empty folded bucket leaves the coarse bucket of its pixel2 non-empty |
| Palette.AverageKeepsCoarseKey | photo.c:637-643 | a coarse slot's averaged colour is 6-bit and has its bucket's coarse key |
| Palette.FineSlotKey | photo.c:604-610 | a fine slot of a non-empty bucket holds a 6-bit colour whose fine key is that bucket's key |
| Palette.CoarseSlotKey | photo.c:637-643 | a coarse slot of a non-empty coarse bucket j holds a 6-bit colour of coarse key j |
| Palette.FillFineSlots | photo.c:604-610 | slots 0..127 become the fine slots of the sorted table; slots 128..191 are unchanged |
| Palette.FoldBucket | photo.c:616-633 | one iteration leaves leveltwo equal to the coarse table after one more bucket |
| Palette.FoldResidue | photo.c:615-634 | the loop leaves leveltwo equal to the coarse table of all buckets from 128 on |
| Palette.FillCoarseSlots | photo.c:637-643 | slots 128..191 become the coarse slots of leveltwo; slots 0..127 are unchanged |
| Palette.NewCoarseTable | photo.c:592-598 | leveltwo starts with 64 empty buckets |
| Palette.SetUpPalette | photo.c:587-644 | the table ends sorted by count and rearranged; the palette is BuildPalette of the sorted table and the old palette |
| Palette.PaletteAssembled | photo.c:604-643 | the three loops together give BuildPalette |
| Palette.Truncate16 | photo.c:612-626 | an assignment to uint16_t keeps values that fit unchanged |
| Palette.UniformBucket | photo.c:509-516 | the bucket of n copies of one pixel has n times its contributions |
| Palette.WrapMisplacesBucket | photo.c:618-627 | 1041 pure-green pixels make green_average wrap, so a bucket of coarse index 12 is folded into coarse bucket 0 |
| Palette.FineBucketBounded | photo.c:513-516 | a bucket's sums are at most 62, 63 and 62 times its count |
| Palette.SmallBucketNoWrap | photo.c:618-620 | a bucket of at most 1040 pixels cannot wrap in the uint16_t variables |
| Palette.FineBucketFits | photo.c:513-516 | with at most 1024 × 1024 pixels, every fine bucket's counter and sums stay below 2^26 |
| Remap.FirstFineSpec | photo.c:552-559 | the fine search returns the first matching fine slot, or nothing when no fine slot matches |
| Remap.FirstCoarseSpec | photo.c:561-570 | the coarse search returns the first matching coarse slot, or nothing when none matches |
| Remap.RemapPixel | photo.c:549-570 | the two loops find exactly the slot RemapSlot names: the first fine match, else the first coarse match |
| Remap.FullerBefore | photo.c:601 | in count order every bucket before a non-empty one is non-empty |
| Remap.SortedHoldsKey | photo.c:601 | after the sort, position inv[k] holds the bucket of key k |
| Remap.OtherFineSlotMisses | photo.c:554 | a filled fine slot of another key does not match the pixel |
| Remap.OwnFineSlotMatches | photo.c:554-610 | the fine slot of the pixel's own bucket matches the pixel |
| Remap.OtherCoarseSlotMisses | photo.c:637-643 | a filled coarse slot of another coarse index does not match the pixel |
| Remap.OwnCoarseBucketFilled | photo.c:615-634 | without wrap, a folded pixel's coarse bucket is non-empty |
| Remap.OwnCoarseSlotMatches | photo.c:637-643 | without wrap, the coarse slot of the pixel's coarse index matches the pixel |
| Remap.RemapFineCase | photo.c:549-559 | a pixel whose bucket got a fine slot is mapped to exactly that slot |
| Remap.RemapCoarseCase | photo.c:561-570 | without wrap, a folded pixel is mapped to a matching coarse slot no later than its own; an earlier slot is one whose coarse bucket is empty and still holds its old colour |
| Remap.NoFineSlotWhenFolded | photo.c:552-559 | a folded pixel matches no fine slot |
| Remap.EarlierCoarseSlotIsStale | photo.c:637-643 | a matching coarse slot before the pixel's own belongs to an empty coarse bucket and was not refilled |
| ReadPhoto.RemapImageSlice | photo.c:531-572 | remapping a stretch of the file gives that stretch of the remapped image |
| ReadPhoto.PhotoFrom | photo.c:525-576 | the photo is valid, with the header and the chosen palette |
| ReadPhoto.NewFineTable | photo.c:442-445 | levelfour starts as the table of no pixels |
| ReadPhoto.PassOne | photo.c:479-519 | pass one fails exactly when the file has fewer than width × height pixels; otherwise levelfour is the fine table of those pixels in file order |
| ReadPhoto.StoreRemapped | photo.c:549-570 | the cell gets slot plus 64 when a slot matches and keeps its byte otherwise; no other cell changes |
| ReadPhoto.PassTwoRow | photo.c:534-571 | one row of pass two stores the remapped file row at its memory row and changes nothing else |
| ReadPhoto.PassTwoStep | photo.c:531-572 | one outer iteration adds memory row y above the rows already remapped |
| ReadPhoto.PassTwo | photo.c:531-572 | the image ends as the remapped file pixels with rows turned top down |
| ReadPhoto.RemapPhoto | photo.c:525-576 | the zeroed image filled by pass two gives PhotoFrom of the header, file and palette |
| ReadPhoto.PhotoCell | photo.c:531-572 | photo cell (row, col) holds the remapped byte of file pixel (height-1-row, col) |
| ReadPhoto.PhotoCellFine | photo.c:549-559 | a cell whose file pixel's bucket ranks among the 128 fullest holds that bucket's sorted position plus 64 |
| ReadPhoto.PhotoCellCoarse | photo.c:561-570 | without wrap, a cell whose pixel's bucket was folded holds a byte from 192 up to 192 plus its coarse index, and that palette slot matches the pixel's coarse key |
| ReadPhoto.ReadPhoto | photo.c:430-577 | nothing results exactly when the header is missing or too large or the file is short; otherwise the buckets are sorted and rearranged from pass one and the photo is PhotoFrom with the palette they build |
| Compositor.MapPixelTop | photo.c:154-190 | the last object in the list that shows at a cell decides its byte |
| Compositor.MapPixelBackground | photo.c:149-152 | a cell where no object shows holds the photo's byte |
| Compositor.TransparentInvisible | photo.c:185-188 | an object whose every byte is OBJ_CLR_TRANSP does not change any cell |
| Compositor.HorizBackground | photo.c:151 | testing only the column gives the photo's byte at the cell, 0 off the photo, when the row lies on the photo |
| Compositor.VertBackground | photo.c:225 | testing only the row gives the photo's byte at the cell, 0 off the photo, when the column lies on the photo |
| Compositor.UncheckedRowLeavesPhoto | photo.c:151 | for a row off the photo, the offset read for an in-photo column lies outside view->img |
| Compositor.UncheckedColumnLeavesRow | photo.c:225 | for a column off the photo, the offset read for an in-photo row lies outside that row |
| Compositor.HorizCulledExact | photo.c:160-163 | the horizontal skip test holds, for objects of non-zero width, exactly when the object covers none of the line's cells |
| Compositor.VertCulledExact | photo.c:234-238 | the vertical skip test holds, for objects of non-zero height, exactly when the object covers none of the column's cells |
| Compositor.OverlayHoriz | photo.c:160-189 | drawing one object leaves each buffer cell as that object drawn over its old byte |
| Compositor.OverlayVert | photo.c:234-264 | drawing one object leaves each buffer cell as that object drawn over its old byte |
| Compositor.FillHoriz | photo.c:135-191 | each buffer byte is the map byte at (x+i, y): the photo under the room's objects in list order |
| Compositor.FillVert | photo.c:209-266 | each buffer byte is the map byte at (x, y+i): the photo under the room's objects in list order |
| SevenSegment.DetermineVal | module/tuxctl-ioctl.c:290-413 | for point 0 or 1 the result is a byte, and 0 for a value above 15; for any other point the value comes back unchanged |
| SevenSegment.IndexOf | module/tuxctl-ioctl.c:56-88 | returns the first table position at or after from that holds the byte, or nothing when none does; the lookup Decode uses to invert the tables |
| SevenSegment.Decode | module/tuxctl-ioctl.c:56-88 | a decoded byte shows a digit below 16; Decode inverts the two tables for the round trip of DecodeDetermineVal, and the driver itself never decodes |
| SevenSegment.TableFacts | module/tuxctl-ioctl.c:56-88 | plain bytes leave the decimal point off, and each dotted byte is its plain byte with the point on |
| SevenSegment.DpSetsSegment | module/tuxctl-ioctl.c:295-409 | with the point on, determine_val gives its byte with the point off plus the point segment |
| SevenSegment.PlainInjective | module/tuxctl-ioctl.c:73-88 | the sixteen plain bytes are pairwise distinct |
| SevenSegment.DecodeDigit | module/tuxctl-ioctl.c:56-88 | each table byte decodes to its digit and decimal point |
| SevenSegment.DecodeDetermineVal | module/tuxctl-ioctl.c:290-413 | decoding determine_val's byte gives back the digit and the decimal point |
| SevenSegment.DetermineValInjective | module/tuxctl-ioctl.c:290-413 | different digits or decimal points give different bytes |
| Tuxctl.LedValue | module/tuxctl-ioctl.c:229-256 | the digit taken for each LED is below 16 |
| Tuxctl.LedPoint | module/tuxctl-ioctl.c:230-257 | the decimal point taken for each LED is 0 or 1 |
| Tuxctl.LedBuffer | module/tuxctl-ioctl.c:221-261 | the LED packet has six bytes |
| Tuxctl.LedBufferDecodes | module/tuxctl-ioctl.c:221-261 | the packet starts with MTCP_LED_SET and the LED mask; a selected LED's byte decodes to the digit and point asked for; an unselected LED's byte is what the buffer held |
| Tuxctl.MaskIsNibble | module/tuxctl-ioctl.c:223-225 | the LED mask is four bits and survives the store into the byte buffer |
| Tuxctl.ButtonByte | module/tuxctl-ioctl.c:138 | the high nibble is C's low nibble and the low nibble is B's low nibble |
| Tuxctl.OneLedPacketPerAck | module/tuxctl-ioctl.c:130-277 | between acknowledgements at most one LED packet is sent, none while one is outstanding, and the flag is up exactly when one is |
| Tuxctl.AckEnablesSetLed | module/tuxctl-ioctl.c:130-277 | after an MTCP_ACK the next TUX_SET_LED succeeds and sends its six-byte packet |
| Tuxctl.TuxController.constructor | module/tuxctl-ioctl.c:94-101 | the globals start at zero with nothing sent |
| Tuxctl.TuxController.Put | module/tuxctl-ioctl.c:145-156 | the bytes are appended to what was sent; the globals are unchanged |
| Tuxctl.TuxController.WriteLed | module/tuxctl-ioctl.c:228-261 | one LED's buffer byte becomes its segment byte if selected and is kept otherwise; nothing else changes |
| Tuxctl.TuxController.FillLedBuffer | module/tuxctl-ioctl.c:221-261 | the buffer becomes LedBuffer of its old contents and the argument |
| Tuxctl.TuxController.SetLed | module/tuxctl-ioctl.c:213-281 | the new state and return value are SetLedStep's: the buffer is always rebuilt; -EINVAL with nothing sent while a packet is outstanding; otherwise the packet is sent, the flag raised, and 0 returned |
| Tuxctl.TuxController.HandlePacket | module/tuxctl-ioctl.c:119-162 | the new state is PacketStep's: MTCP_ACK lowers the flag, MTCP_BIOC_EVENT sets the button byte, MTCP_RESET re-sends BIOC_ON, LED_USR and the buffer unless a packet is outstanding, anything else changes nothing |
| Tuxctl.TuxController.Ioctl | module/tuxctl-ioctl.c:177-203 | the new state, return value and copied byte are IoctlStep's: TUX_INIT sends two bytes; TUX_BUTTONS fails on a null pointer and copies the button byte otherwise; TUX_SET_LED is SetLed; anything else fails with -EINVAL |

## Left out

- File I/O, `malloc`, `free` and `fclose`: a file is the header that was read and the pixels after it, and allocation never fails.
- `fseek` back to the first pixel before pass two: pass two reads the same pixel sequence again.
- The constants of `photo_headers.h`, `modex.h`, `mtcp.h` and `tuxctl-ioctl.h`: those files are not part of this model.
  The model uses the values those files define.
  The `ioctl` command numbers are a datatype `Command`.
- `prep_room` and `set_palette`: programming the VGA palette is hardware output.
- The world functions (`room_photo`, `room_contents_iterate`, `obj_next`, `obj_get_x`, `obj_get_y`, `obj_image`) are not part of this model: the photo and the object list are inputs.
- Commented-out code in `photo.c`, including the 2:2:2 remap and the `palette` stub, is dead and not modelled.
- Compositor.FillHoriz: requires `0 <= y < height`. The C code tests only the column before reading `view->img` (photo.c:151), so its callers must keep y inside the photo. HorizBackground reads with that one test; UncheckedRowLeavesPhoto shows that for any other row the offset falls outside the image.
- Compositor.FillVert: requires `0 <= x < width`. The C code tests only the row (photo.c:225). VertBackground reads with that one test; UncheckedColumnLeavesRow shows that for any other column the offset falls outside the row.
- Compositor.FillHoriz: coordinates are mathematical integers. Overflow of `int` in `x + idx` and `obj_x + width` is not modelled, because map coordinates are small.
- ReadPhoto.PassTwo: the image starts zeroed, whereas `malloc` leaves it uninitialised. A pixel that matches no slot therefore keeps 0. With no wrap in its bucket, every pixel matches (RemapFineCase, RemapCoarseCase).
- ReadPhoto.ReadPhoto: the order of `qsort` is given only as a rearrangement sorted by count, returned in `sorted`. The tie order is not modelled.
- Remap.RemapCoarseCase: holds only when the pixel's fine bucket does not wrap in the `uint16_t` variables of `set_up_palette` (NoWrap). WrapMisplacesBucket shows a bucket of 1041 identical pixels for which the fold lands in the wrong coarse bucket. SmallBucketNoWrap shows that buckets of at most 1040 pixels never wrap.
- Tuxctl.TuxController.HandlePacket: requires at least three bytes. The line discipline always passes a three-byte packet.
- FineBuckets.Bucket: the declaration of `octree_t` is not part of this model. Its counter and sums are taken to be at least 32 bits wide and are unbounded naturals here; FineBucketFits shows that with at most 1024 × 1024 pixels they stay below 2^26.
- Spinlocks and interrupts are not modelled: each call is one atomic step. The `led_lock` use in module/tuxctl-ioctl.c does not balance, so as written every `TUX_SET_LED` deadlocks on a non-recursive spinlock:
  - each selected LED calls `determine_val` (lines 231, 240, 249, 258) while holding `led_lock`, taken at lines 227, 236, 245 and 254, and `determine_val` takes `led_lock` again at line 294;
  - with the decimal point not 1, `determine_val` takes it a third time at line 353 and releases it once (line 408 or 411);
  - the default cases of `determine_val` return without releasing it (lines 347 and 406);
  - an LED that is not selected skips the unlock inside its `if` (lines 233, 242, 251, 260), so the next block takes the lock again while holding it (lines 236, 245, 254, 274).
  The model gives each call the effect its code describes, as if every lock were released on return. `flag_lock` (lines 263-271) is balanced.
- `tuxctl_ldisc_put` returning fewer bytes than asked: a send always succeeds and is appended to `sent`.
- Tuxctl.TuxController.Ioctl: the `TUX_BUTTONS` pointer is only compared with 0. Whether `copy_to_user` succeeds is not modelled.
