# Digital-Systems-Design: pixel pipeline, frame reader, RC4 and playback

A Dafny 4.11 model of the software of lab 5 and of the RC4 listing of lab 4, with proofs.
`dafny verify dfyconfig.toml` checks all of it.

| file | models |
|---|---|
| `Memory.dfy` | byte memory as a log of stores: what a log leaves at an address, when logs commute, nested row and column loops, little-endian words, `memcpy` |
| `PixMap.dfy` | `gimp_bmp.c`: the six pixel-format converters and `load_gimp_bmp` |
| `DrawGimps.dfy` | `draw_gimps.c`: the row copy, the clipped blit and the transparent blit |
| `Screen.dfy` | `DispIMAGE`, `DispIMAGE_fit`, `DispIMAGE_from_gimp`: load and blit together, up to what the video device shows |
| `Dma.dfy` | `my_memcpy` of `vip_fr.c`: the descriptor chain and its execution |
| `VipFr.dfy` | the double-buffered frame reader of `vip_fr.c` with its device registers |
| `Rc4.dfy` | the RC4 listing of lab 4 |
| `Playback.dfy` | `task1` and `task2` of `hello_ucosii.c`, interleaved write by write |
| `Arith.dfy`, `ByteBits.dfy` | products, quotients and remainders; bytes as numbers and as bits |

How to read it. A loop of the C code is a method with the same loops, pointers (as offsets) and stores, proved
equal to a specification: for the pixel code the log of its stores (`Grid` over a per-pixel log), for the driver,
the cipher and `task1`/`task2` a step function on plain values. The theorems are then about those specifications. A
store outside the memory is dropped by the specification; the methods show that theirs are inside. `unsigned long` is
32 bits, the processor is little-endian (`system.h` line 64), frames lie in one byte memory, and `transparent` is the
32-bit pattern the C comparison uses. `hide` statements only narrow what the solver looks at in one proof.

The picture that results:

* An RGB image drawn on the screen puts the colour of image pixel (r, c) in screen word (y+r, x+c), read back through
  the device registers, except where it is the transparent colour; nothing else changes (`Screen.PictureShown`,
  `Screen.PlacedShown`, and the contract of `Screen.DispImageFromGimp`). This runs through the narrowing of the
  dimensions to `short`, a converter, and a blit.
* The frame reader refines an ideal front/back pair over every run, given disjoint frames (`VipFr.RunRefines`).
* The RC4 methods compute the one output that satisfies the lines of the listing (`Rc4.ListingIff`). RC4 run twice is
  the identity, its rounds are bijections, its keystream is periodic from the first byte, and no key leads it into the
  short cycle (`Rc4.CipherTwice`, `Rc4.KeystreamPeriodic`, `Rc4.NeverStuck`).
* What a click does is told from the clicks alone, however task1 interleaves (`Playback.ClicksDecide`). The song
  position after any run of clicks, single writes and passes is a closed form (`Playback.SongPosition`).

Where the code does not do what its comments or names suggest, the model follows the code:

* RGBA images come out with red and blue exchanged, because `copy_pix_map_32_to_32` keeps the order that
  `copy_pix_map_24_to_32` reverses. A pixel has its own colour exactly when the image is RGB or its red and blue are
  equal (`Screen.TrueColourIff`).
* `DRAW_EraseScreen` fills bytes: a word gets the colour asked for exactly when its four bytes are equal
  (`VipFr.EraseColourIff`).
* Erasing is invisible for every colour exactly when the frames are disjoint (`VipFr.EraseInvisibleIff`). `main` passes
  one address for both, so what it gets is a single buffer (`VipFr.OneFrameForBoth`).
* With nothing to copy `my_memcpy` allocates no descriptor but still starts the transfer on the first one
  (`Dma.MyMemcpy`).
* `DispIMAGE` ignores its `x` and `y` (`Screen.DispImage`). The clip tests are inclusive, so the window is one wider and
  one taller than `w_fit` and `h_fit` (`DrawGimps.ClippedCount`).

## Model

| member | source | states |
|---|---|---|
| Memory.ApplyAt | lab5/Lab5_template_de1soc/software/lab5/graphic_lib/draw_gimps.c:80-102 | after any list of stores each address holds the last value stored there, or its old value |
| Memory.OrderIrrelevant | lab5/Lab5_template_de1soc/software/lab5/graphic_lib/draw_gimps.c:80-102 | lists of stores that share no address may be applied in any order and any number of times |
| Memory.StoreWord | lab5/Lab5_template_de1soc/software/lab5_bsp/system.h:64 | a word store is four byte stores, least significant first |
| Memory.WordBytes | lab5/Lab5_template_de1soc/software/lab5_bsp/system.h:64 | splitting a word into bytes and joining them is the identity both ways |
| Memory.MemCpy | lab5/Lab5_template_de1soc/software/lab5/vip_fr.c:139 | a byte-by-byte copy lays the old source block over the destination and changes nothing else |
| PixMap.PackingsAgree | lab5/Lab5_template_de1soc/software/lab5/graphic_lib/gimp_bmp.c:193-195 | shifting a little-endian word and masking single bytes both give the 5-6-5 colour |
| PixMap.Rgb565Fields | lab5/Lab5_template_de1soc/software/lab5/graphic_lib/gimp_bmp.c:306-310 | the fields of that colour are the top 5 bits of red, top 6 of green and top 5 of blue |
| PixMap.PixelStoresAt | lab5/Lab5_template_de1soc/software/lab5/graphic_lib/gimp_bmp.c:226-239 | one pixel step stores each byte of its destination pixel once, with the converted value, and nothing else |
| PixMap.CopyPixMap32To32 | lab5/Lab5_template_de1soc/software/lab5/graphic_lib/gimp_bmp.c:96-125 | the stride-walking loop makes exactly the stores of the row and column form |
| PixMap.CopyPixMap32To24 | lab5/Lab5_template_de1soc/software/lab5/graphic_lib/gimp_bmp.c:128-163 | the same, dropping the fourth byte |
| PixMap.CopyPixMap32To16 | lab5/Lab5_template_de1soc/software/lab5/graphic_lib/gimp_bmp.c:166-203 | the same, packing a word to 5-6-5 |
| PixMap.CopyPixMap24To32 | lab5/Lab5_template_de1soc/software/lab5/graphic_lib/gimp_bmp.c:206-243 | the same, reversing the channels and adding 0xff |
| PixMap.CopyPixMap24To24 | lab5/Lab5_template_de1soc/software/lab5/graphic_lib/gimp_bmp.c:246-281 | the same, three bytes kept |
| PixMap.CopyPixMap24To16 | lab5/Lab5_template_de1soc/software/lab5/graphic_lib/gimp_bmp.c:283-319 | the same, packing three bytes to 5-6-5 |
| PixMap.ConvertedAt | lab5/Lab5_template_de1soc/software/lab5/graphic_lib/gimp_bmp.c:96-319 | for all six and all line widths that hold the image, every active destination byte is written exactly once, from the source pixel of its row and column |
| PixMap.ConvertedElsewhere | lab5/Lab5_template_de1soc/software/lab5/graphic_lib/gimp_bmp.c:96-319 | bytes outside the active line segments, such as line padding, are never written |
| PixMap.PackingCommutes | lab5/Lab5_template_de1soc/software/lab5/graphic_lib/gimp_bmp.c:128-203 | 32 to 16 leaves the same memory as 32 to 24 followed by 24 to 16, for every destination and intermediate buffer |
| PixMap.RoundTripReverses | lab5/Lab5_template_de1soc/software/lab5/graphic_lib/gimp_bmp.c:128-243 | 24 to 32 and back reverses the channels of every pixel |
| PixMap.RoundTripTwice | lab5/Lab5_template_de1soc/software/lab5/graphic_lib/gimp_bmp.c:128-243 | two such round trips, through any buffers, restore every pixel |
| PixMap.TightIsConvert | lab5/Lab5_template_de1soc/software/lab5/graphic_lib/gimp_bmp.c:25-91 | with lines as wide as the image the nested loops are one map over the pixels |
| PixMap.ToShortKeeps | lab5/Lab5_template_de1soc/software/lab5/graphic_lib/gimp_bmp.c:14-15 | a dimension survives the short field exactly when it is below 32768, and is otherwise narrowed modulo 65536 into its range |
| PixMap.LoadedMeaning | lab5/Lab5_template_de1soc/software/lab5/graphic_lib/gimp_bmp.c:14-91 | a load converts as many pixels as the narrowed dimensions say |
| PixMap.ChosenIff | lab5/Lab5_template_de1soc/software/lab5/graphic_lib/gimp_bmp.c:25-90 | a converter is selected exactly for 3 or 4 bytes per pixel at 16, 24 or 32 bits |
| PixMap.LoadedPixel | lab5/Lab5_template_de1soc/software/lab5/graphic_lib/gimp_bmp.c:25-90 | told from bytes_per_pixel: a 16-bit pixel is the 5-6-5 colour, a 24-bit one the channels in order, a 32-bit one the RGBA bytes or the RGB channels reversed and 0xff |
| PixMap.LoadGimpBmp | lab5/Lab5_template_de1soc/software/lab5/graphic_lib/gimp_bmp.c:5-94 | the bitmap has the narrowed dimensions and a fresh buffer holding the conversion that the two formats select |
| DrawGimps.AsVidCopyImageToBuffer | lab5/Lab5_template_de1soc/software/lab5/graphic_lib/draw_gimps.c:14-30 | row-by-row memcpy stores each bitmap word, unclipped, at the frame's origin |
| DrawGimps.AsVidCopyImageToBuffer2 | lab5/Lab5_template_de1soc/software/lab5/graphic_lib/draw_gimps.c:32-65 | the per-pixel loop makes the stores of the clipped blit, in order, on every input whose stores lie in memory |
| DrawGimps.AsVidCopyImageToBuffer3 | lab5/Lab5_template_de1soc/software/lab5/graphic_lib/draw_gimps.c:68-105 | the same for the transparent blit |
| DrawGimps.ReadPixel | lab5/Lab5_template_de1soc/software/lab5/graphic_lib/draw_gimps.c:83-91 | the next four source bytes become the colour whose red is byte 2 and the pointer moves on by four |
| DrawGimps.BlitWord | lab5/Lab5_template_de1soc/software/lab5/graphic_lib/draw_gimps.c:80-102 | each pixel inside the window leaves its colour in its own word, or the word's old value if it has the transparent colour |
| DrawGimps.BlitElsewhere | lab5/Lab5_template_de1soc/software/lab5/graphic_lib/draw_gimps.c:80-102 | no byte outside the window is written, whatever the offsets |
| DrawGimps.CopyElsewhere | lab5/Lab5_template_de1soc/software/lab5/graphic_lib/draw_gimps.c:21-27 | nor does the row copy write outside its words |
| DrawGimps.WindowIs | lab5/Lab5_template_de1soc/software/lab5/graphic_lib/draw_gimps.c:57 | the window is min(n, fit+1) columns or rows |
| DrawGimps.ClippedCount | lab5/Lab5_template_de1soc/software/lab5/graphic_lib/draw_gimps.c:44-62 | the clipped blit writes min(w, w_fit+1) by min(h, h_fit+1) pixels |
| DrawGimps.KeyUnusedIff | lab5/Lab5_template_de1soc/software/lab5/graphic_lib/draw_gimps.c:93-97 | the transparent blit makes the stores of the clipped one exactly when no pixel in the window has the transparent colour |
| DrawGimps.ImpossibleKey | lab5/Lab5_template_de1soc/software/lab5/graphic_lib/draw_gimps.c:91-97 | a transparent value above 0xffffff gives the clipped blit on every input |
| DrawGimps.FastBlitAgrees | lab5/Lab5_template_de1soc/software/lab5/graphic_lib/draw_gimps.c:14-65 | the row copy and the pixel blit agree in the low 24 bits of every written word and leave the same words alone, even when image lines overlap in the frame |
| Screen.LoadedColour | lab5/Lab5_template_de1soc/software/lab5/graphic_lib/gimp_bmp.c:69-90 | the blit's colour of a loaded pixel is the image's for RGB and has red and blue exchanged for RGBA |
| Screen.TrueColourIff | lab5/Lab5_template_de1soc/software/lab5/graphic_lib/gimp_bmp.h:7 | a pixel is drawn in its own colour exactly when the image is RGB or its red equals its blue |
| Screen.DrawnWord | lab5/Lab5_template_de1soc/software/lab5/graphic_lib/draw_gimps.c:149-231 | load and blit with any offset, clipping and key leave the image pixel's colour in its frame word |
| Screen.PictureOnScreen | lab5/Lab5_template_de1soc/software/lab5/graphic_lib/draw_gimps.c:191-231 | for an RGB image the frame word (y+r, x+c) is R<<16 + G<<8 + B of pixel (r, c) unless that is the transparent colour |
| Screen.RestOfScreen | lab5/Lab5_template_de1soc/software/lab5/graphic_lib/draw_gimps.c:191-231 | every byte outside the image's rectangle is unchanged |
| Screen.CopyOnScreen | lab5/Lab5_template_de1soc/software/lab5/graphic_lib/draw_gimps.c:109-147 | DispIMAGE shows the same colours in the low 24 bits |
| Screen.PictureShown | lab5/Lab5_template_de1soc/software/lab5/graphic_lib/draw_gimps.c:208-221 | word (y+r, x+c) of what the device, read through its registers, shows is the colour of pixel (r, c) unless that is the transparent colour |
| Screen.PlacedShown | lab5/Lab5_template_de1soc/software/lab5/graphic_lib/draw_gimps.c:149-231 | with any clipping and key: every pixel in the window shows its colour and every other byte of the screen is as before |
| Screen.CopyShown | lab5/Lab5_template_de1soc/software/lab5/graphic_lib/draw_gimps.c:109-147 | after the row copy the screen shows the colours from its corner on, and every other byte is as before |
| Screen.OnScreenIsInside | lab5/Lab5_template_de1soc/software/lab5/graphic_lib/draw_gimps.c:217-221 | a rectangle on the screen keeps all stores in memory |
| Screen.DrawTwice | lab5/Lab5_template_de1soc/software/lab5/graphic_lib/draw_gimps.c:68-105 | drawing an image twice equals drawing it once |
| Screen.DisjointDrawsCommute | lab5/Lab5_template_de1soc/software/lab5/graphic_lib/draw_gimps.c:68-105 | draws into disjoint rectangles commute |
| Screen.DrawOrderIrrelevant | lab5/Lab5_template_de1soc/software/lab5/hello_ucosii.c:111-115 | lists of the same draws into pairwise disjoint rectangles, in any order and with repetitions, leave the same frame |
| Screen.DrawAllWord | lab5/Lab5_template_de1soc/software/lab5/hello_ucosii.c:111-115 | after all the draws every pixel of every picture has its colour in its own word, unless transparent |
| Screen.DrawAllElsewhere | lab5/Lab5_template_de1soc/software/lab5/hello_ucosii.c:111-115 | a byte in no picture's rectangle keeps its value |
| Screen.PanelOrderIrrelevant | lab5/Lab5_template_de1soc/software/lab5/hello_ucosii.c:111-115 | in particular the five buttons at their places and sizes |
| Screen.DispImageFromGimp | lab5/Lab5_template_de1soc/software/lab5/graphic_lib/draw_gimps.c:191-231 | the sprite is drawn into the frame on the screen, 1 is returned, and on a configured display the screen then shows the picture |
| Screen.DispImageFit | lab5/Lab5_template_de1soc/software/lab5/graphic_lib/draw_gimps.c:149-189 | the clipped image is drawn into the frame on the screen, which on a configured display then shows its window |
| Screen.DispImage | lab5/Lab5_template_de1soc/software/lab5/graphic_lib/draw_gimps.c:109-147 | the image is copied to the corner of the frame on the screen, whatever x and y are, and on a configured display is what the screen then shows |
| Dma.ChainTiles | lab5/Lab5_template_de1soc/software/lab5/vip_fr.c:161-178 | every byte of the transfer lies in exactly one block, carried to its own place |
| Dma.ChainShape | lab5/Lab5_template_de1soc/software/lab5/vip_fr.c:161-178 | blocks hold 1 to 32768 bytes, join without gap or overlap, and only the last is unlinked |
| Dma.ChainLength | lab5/Lab5_template_de1soc/software/lab5/vip_fr.c:162-163 | the number of descriptors is n / 32768 rounded up |
| Dma.BuildChain | lab5/Lab5_template_de1soc/software/lab5/vip_fr.c:161-178 | the loop fills exactly the ceil(n/32768) descriptors allocated |
| Dma.ChainCopies | lab5/Lab5_template_de1soc/software/lab5/vip_fr.c:168-181 | executing the chain is one plain copy |
| Dma.RunChain | lab5/Lab5_template_de1soc/software/lab5/vip_fr.c:180-181 | the engine follows the links of any forward chain and stops at an unlinked descriptor |
| Dma.MyMemcpy | lab5/Lab5_template_de1soc/software/lab5/vip_fr.c:146-185 | the chained transfer is a plain copy exactly when the device is found and the size is positive |
| VipFr.FrameReader.constructor | lab5/Lab5_template_de1soc/software/lab5/vip_fr.c:21-44 | after initialisation frame 0 is selected and running, both frames have their base, words, cycle, width and height registers, and neither is interlaced |
| VipFr.FrameReader.StartDevice | lab5/Lab5_template_de1soc/software/lab5/vip_fr.c:35-41 | the fifteen register writes, in order |
| VipFr.RegistersSet | lab5/Lab5_template_de1soc/software/lab5/vip_fr.c:35-41 | what those writes leave in each register |
| VipFr.FrameReader.SetFrameSize | lab5/Lab5_template_de1soc/software/lab5/vip_fr.c:51-65 | the twelve frame registers get bases, sizes, dimensions and interlacing |
| VipFr.FrameReader.SelectFrame | lab5/Lab5_template_de1soc/software/lab5/vip_fr.c:109-111 | register 3 gets the frame index |
| VipFr.FrameReader.GetDrawFrame | lab5/Lab5_template_de1soc/software/lab5/vip_fr.c:71-75 | the base of the frame that is not displayed |
| VipFr.FrameReader.ActiveDrawFrame | lab5/Lab5_template_de1soc/software/lab5/vip_fr.c:76-80 | the activation step: the other frame is displayed and selected |
| VipFr.FrameReader.EraseScreen | lab5/Lab5_template_de1soc/software/lab5/vip_fr.c:82-84 | the erase step: the draw frame is filled with the colour's low byte |
| VipFr.FrameReader.ReserveBackground | lab5/Lab5_template_de1soc/software/lab5/vip_fr.c:122-141 | the reserve step: the draw frame becomes a copy of the displayed one |
| VipFr.FrameReader.ReserveBackgroundDma | lab5/Lab5_template_de1soc/software/lab5/vip_fr.c:136-137 | the DMA build takes the same step, exactly when the device is found and the frame is not empty |
| VipFr.StepRefines | lab5/Lab5_template_de1soc/software/lab5/vip_fr.c:71-141 | each step keeps the registers in agreement and acts as on an ideal front/back pair |
| VipFr.RunRefines | lab5/Lab5_template_de1soc/software/lab5/vip_fr.c:71-141 | over every run with disjoint frames, and memory outside the frames is untouched |
| VipFr.ScreenSteady | lab5/Lab5_template_de1soc/software/lab5/vip_fr.c:71-141 | between two activations nothing on the screen changes |
| VipFr.ReserveActivateInvisible | lab5/Lab5_template_de1soc/software/lab5/vip_fr.c:76-141 | after any run, reserve then activate leaves the screen as it is |
| VipFr.DisplayParity | lab5/Lab5_template_de1soc/software/lab5/vip_fr.c:76-80 | the displayed frame is the parity of the activations |
| VipFr.EraseInvisibleIff | lab5/Lab5_template_de1soc/software/lab5/vip_fr.c:82-84 | erasing is invisible for every colour exactly when the frames are disjoint |
| VipFr.ErasedByte | lab5/Lab5_template_de1soc/software/lab5/vip_fr.c:82-84 | every byte of the draw frame is the low byte of the colour |
| VipFr.OneFrameForBoth | lab5/Lab5_template_de1soc/software/lab5/hello_ucosii.c:343-346 | with one address for both frames every run is that of a single buffer |
| VipFr.EraseColourIff | lab5/Lab5_template_de1soc/software/lab5/vip_fr.c:82-84 | an erased word is the colour asked for exactly when the four bytes of the colour are equal |
| Rc4.FillState | lab4/README.md:30-32 | the array is the identity |
| Rc4.ShuffleByKey | lab4/README.md:34-38 | j and the array after 256 shuffle rounds, each of which exchanges s[i] and s[j] |
| Rc4.NextKeyByte | lab4/README.md:42-45 | one keystream round, and the entry numbered by the sum of the two exchanged entries |
| Rc4.DecryptMessage | lab4/README.md:40-47 | the variables and the output of the last loop |
| Rc4.RunListing | lab4/README.md:30-47 | the output satisfies every line of the listing for some values of the variables, for keys of length at least 1 and messages of any length |
| Rc4.ListingIff | lab4/README.md:30-47 | a result is the cipher's exactly when some values of the variables make every line of the listing hold |
| Rc4.SwapAt | lab4/README.md:37 | a swap exchanges the entries at i and j and keeps every other one |
| Rc4.ShuffleRoundAt | lab4/README.md:36-37 | what a shuffle round leaves in j, at i, at j and everywhere else |
| Rc4.StreamRoundAt | lab4/README.md:42-44 | what a keystream round leaves in i, in j, at i, at j and everywhere else |
| Rc4.KeyBytePlace | lab4/README.md:45 | in a permutation the keystream byte stands at place (s[i]+s[j]) mod 256 and nowhere else |
| Rc4.OutputByte | lab4/README.md:45-46 | output byte k is input byte k xor the entry of the array of round k+1 at that place, and no other entry |
| Rc4.TrajectoryIgnoresMessage | lab4/README.md:40-47 | runs on two messages of one length go through the same (i, j, s) |
| Rc4.DecryptAt | lab4/README.md:41-47 | output byte k is input byte k xor the byte of keystream round k+1 |
| Rc4.CipherTwice | lab4/README.md:30-47 | the listing run twice with one key returns the message |
| Rc4.DecryptConcat | lab4/README.md:40-47 | decrypting a concatenation is decrypting the parts in turn, at every split |
| Rc4.AlwaysPermutation | lab4/README.md:30-47 | the array is a permutation of 0..255 after every round of every loop, and i = k mod 256 |
| Rc4.ShuffleRoundReversible | lab4/README.md:36-37 | a shuffle round is a bijection for a known key |
| Rc4.StreamRoundReversible | lab4/README.md:42-44 | a keystream round is a bijection |
| Rc4.ShuffleReversible | lab4/README.md:34-38 | undoing all rounds restores the filled array and j = 0 |
| Rc4.RunReversible | lab4/README.md:40-47 | undoing n keystream rounds restores the start |
| Rc4.RepeatedKeySameSchedule | lab4/README.md:35-38 | a key repeated any number of times gives the same s and j after every round |
| Rc4.NeverStuck | lab4/README.md:30-47 | no key and no number of rounds reach a state with j = i+1 and s[j] = 1 |
| Rc4.StuckIffBefore | lab4/README.md:42-44 | a round is in that short cycle exactly when the state before it was |
| Rc4.KeystreamPeriodic | lab4/README.md:40-47 | from every state the rounds return to it, so the keystream repeats from its first byte |
| Playback.FlagsInvariant | lab5/Lab5_template_de1soc/software/lab5/hello_ucosii.c:275-302 | at every point of every run the three flags are those of the click in progress |
| Playback.NeverThirdMode | lab5/Lab5_template_de1soc/software/lab5/hello_ucosii.c:160-173 | task1 sees the old mode, none or the clicked one, never a third; between clicks at most one flag is set |
| Playback.SeenMovesForward | lab5/Lab5_template_de1soc/software/lab5/hello_ucosii.c:275-302 | over the writes of a click the mode seen never moves back |
| Playback.SeenAfterIsSeen | lab5/Lab5_template_de1soc/software/lab5/hello_ucosii.c:275-302 | the flags of a run show that mode, and a finished click leaves only its own flag |
| Playback.GapIff | lab5/Lab5_template_de1soc/software/lab5/hello_ucosii.c:160-173 | task1 can see no mode during a click exactly when the click moves down its chain of tests |
| Playback.ClicksDecide | lab5/Lab5_template_de1soc/software/lab5/hello_ucosii.c:275-330 | told from the events: with no write pending task1 sees the mode of the last transport click read, no other flag is set, and frequency and rate are those of the tuning clicks read |
| Playback.ClickInProgress | lab5/Lab5_template_de1soc/software/lab5/hello_ucosii.c:275-302 | while a click is being written task1 sees the mode of the click before, none, or that of this click |
| Playback.NothingBeforeFirstClick | lab5/Lab5_template_de1soc/software/lab5/hello_ucosii.c:146-157 | until a click is read no flag is set, the position is 0 and the rate 44000 |
| Playback.SongPosition | lab5/Lab5_template_de1soc/software/lab5/hello_ucosii.c:156-175 | over every run address_counter is 1000 * (n mod (ceil(size/1000)+1)), n the passes that saw play since a stop was seen |
| Playback.PositionBounds | lab5/Lab5_template_de1soc/software/lab5/hello_ucosii.c:163-168 | so it is a multiple of 1000 in [0, size+1000) and play returns to 0 after ceil(size/1000)+1 passes |
| Playback.NoStopNoReset | lab5/Lab5_template_de1soc/software/lab5/hello_ucosii.c:160-173 | without a click on stop every pass that saw play counts: no interleaving resets the song |
| Playback.RateFollows | lab5/Lab5_template_de1soc/software/lab5/hello_ucosii.c:312-330 | over every run freq_reader is that of the tuning clicks so far, in range between clicks, and the rate set equals it |
| Playback.TunedOneWay | lab5/Lab5_template_de1soc/software/lab5/hello_ucosii.c:312-330 | n clicks forward give min(f+100n, 88000), n back max(f-100n, 100) |
| Playback.BackUndoesForwardIff | lab5/Lab5_template_de1soc/software/lab5/hello_ucosii.c:312-330 | a click back undoes one forward exactly when the frequency was below 88000 |
| Playback.Player.Task1Pass | lab5/Lab5_template_de1soc/software/lab5/hello_ucosii.c:160-173 | one pass takes the tick step; the block sent starts inside the song |
| Playback.Player.Task2Press | lab5/Lab5_template_de1soc/software/lab5/hello_ucosii.c:188-317 | a click is entered, for its own button, only while task2 polls |
| Playback.Player.Task2Write | lab5/Lab5_template_de1soc/software/lab5/hello_ucosii.c:275-330 | one write of a click |

## Left out

- PixMap.LoadGimpBmp: assumes that malloc succeeds, as its callers do, and that width * height * bytes fits an int; says nothing about the buffer when no converter is selected.
- PixMap.CopyPixMap32To32: like the other converters it takes distinct source and destination arrays; converting a buffer in place is not modelled.
- DrawGimps.AsVidCopyImageToBuffer: the diagnostic print at row 349 is left out.
- Screen.DispImageFromGimp: like the other two drawing routines it takes images of 3 or 4 bytes per pixel, the formats the header names; for others the C code blits an uninitialised buffer.
- VipFr.FrameReader.ReserveBackground: asks for disjoint or identical frames, because memcpy is undefined on a partial overlap.
- VipFr.FrameReader.ActiveDrawFrame: the data-cache flush is left out.
- Dma.MyMemcpy: whether the device is found is a parameter, and starting the engine on a descriptor never allocated is a fault without effect.
- Playback.Player.Task1Pass: the audio FIFO is left out; only where in the song a block starts is kept.
- Playback.Player.Task2Press: mouse reading, hit rectangles, button redrawing and the modulation and signal selectors are left out; a click is an event.
- Wrap-around of 32-bit pointers and of int address arithmetic: addresses are unbounded integers, kept inside the memory by each method's requirements.
- The image tables, fonts, text and line drawing, `frame.c`, `student_code.c` and the board support files: constants, register plumbing or single branches.
- The multi-core key search and the circuits of the other labs: described in prose only, so there is no listing to model.
