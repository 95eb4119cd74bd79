# smb2fs core, modelled in Dafny

smb2fs is an AmigaOS file system handler that mounts an SMB2/SMB3 share
through libsmb2. This project models the parts of it whose behaviour is
plain logic. Each part is proved against a specification.

- **Handle registry** (`marshalling.dfy`). Turns pointers into 32-bit
  handles. A handle is an incarnation number and a slot index packed
  together. The registry keeps a free list of released slots and grows by a
  fixed step.
- **Start-up of the handler** (`handler.dfy`). The quote stripping done on
  the start-up string, the argument buffer handed to the argument parser,
  and the init/destroy pair that owns the libsmb2 context.
- **Mount command helpers** (`mount.dfy`, `cstring.dfy`). The hand-written
  `reverse`, `u32toa`, `strcat`, `strlen` and `isspace`. The probe for a
  free `SMBn:` device name. The trimming and quoting of the argument
  string.
- **Password requester edit hook** (`password.dfy`). Its overlapping
  string move (`strmove`). The hook that mirrors every edit of the hidden
  buffer into the real password buffer and shows `*` instead.
- **ctype.h** (`ctype.dfy`). The classification macros and the case
  conversions.
- **libsmb2 compatibility layer** (`compat.dfy`). `writev` and `readv`
  built from one buffer, `poll` built on `select`, and the linear
  congruential `random`/`srandom`.
- **Time** (`time.dfy`). `gettimeofday` and `time` convert the Amiga
  clock, which counts local time from 1978, into Unix time.
- **Setting file times** (`utimens.dfy`). `smb2_utimens` sends one
  compound of CREATE, QUERY_INFO and CLOSE to read the basic information.
  It then sends one compound of CREATE, SET_INFO and CLOSE to write it
  back. Each reply callback folds its status into the first failure.
  `wait_for_reply` polls and services the connection until the last
  callback has run.

Pointers and buffers that the C code changes in place are Dafny arrays and
classes. Everything the code does not decide for itself is a parameter
with the outcome it would report. That includes the outcome of each
allocation, the bytes a `read` returns, what `select` leaves in its sets,
each poll/service round of the connection, the system clock and the
server's replies.

## Model

| member | source | states |
|---|---|---|
| Compat.SumLengths | libsmb2-git/lib/compat.c:242-249 | the length loop with the intended SSIZE_MAX limit: it refuses exactly when the total exceeds the limit, and otherwise yields the total |
| Compat.SumLengthsAsWritten | libsmb2-git/lib/compat.c:242-249 | the length loop as written: `(ssize_t)-1 - bytes` is computed in size_t, so it refuses exactly when the total exceeds SIZE_MAX |
| Compat.AsWrittenAdmitsOverlong | libsmb2-git/lib/compat.c:244 | one segment of SSIZE_MAX+1 bytes passes the check as written although its total exceeds SSIZE_MAX |
| Compat.Concat | libsmb2-git/lib/compat.c:258-269 | the gathered buffer is as long as the total of the segment lengths |
| Compat.CopyIn | libsmb2-git/lib/compat.c:263 | a memcpy into the buffer puts the source at the offset and leaves every other byte as it was |
| Compat.ConcatAt | libsmb2-git/lib/compat.c:260-269 | the gather of a suffix is its first segment followed by the gather of the rest |
| Compat.Gather | libsmb2-git/lib/compat.c:257-269 | after the copy loop the buffer holds every segment, in order, back to back |
| Compat.Writev | libsmb2-git/lib/compat.c:233-275 | for a length limit given as a parameter (SIZE_MAX as written, SSIZE_MAX as intended): a total above the limit fails with EINVAL, a failed malloc fails with -1, and otherwise write sees exactly the concatenated segments and its result is returned |
| Compat.Scatter | libsmb2-git/lib/compat.c:310-321 | scattering never changes the number of segments |
| Compat.ScatterNothing | libsmb2-git/lib/compat.c:310-321 | scattering zero bytes leaves every segment as it was |
| Compat.ScatterHead | libsmb2-git/lib/compat.c:312-318 | the first segment receives min(its length, bytes left) bytes of data and keeps the rest of its old contents |
| Compat.ScatterLens | libsmb2-git/lib/compat.c:312-318 | scattering never changes a segment's length |
| Compat.ScatterThenGather | libsmb2-git/lib/compat.c:310-321 | gathering the scattered segments gives back the data read as a prefix, and all of it when the read filled every segment |
| Compat.ScatterStep | libsmb2-git/lib/compat.c:313-318 | one step of the copy loop fills segment i with the next `copy` bytes and leaves the rest to the following segments |
| Compat.ScatterRest | libsmb2-git/lib/compat.c:319-320 | breaking out once the data is used up leaves the remaining segments unchanged, which is what the scatter of no data gives |
| Compat.CopyToSegment | libsmb2-git/lib/compat.c:315 | copying into segment i changes that segment only |
| Compat.ScatterOne | libsmb2-git/lib/compat.c:313-318 | one round of the copy loop fills segment i with what fits of the bytes left and moves the loop on to segment i+1 |
| Compat.ScatterInto | libsmb2-git/lib/compat.c:310-321 | the copy loop leaves in the segments exactly the scatter of the data over their old contents |
| Compat.Readv | libsmb2-git/lib/compat.c:279-325 | for a length limit given as a parameter (SIZE_MAX as written, SSIZE_MAX as intended): a total above the limit fails with EINVAL and touches nothing; a failed malloc or read returns -1 and touches nothing; otherwise the bytes read are scattered over the segments and their count is returned |
| Compat.ReadvFullRead | libsmb2-git/lib/compat.c:303-321 | a read that fills the whole request leaves the segments holding exactly the bytes read |
| Compat.ReadSetOf | libsmb2-git/lib/compat.c:341-349 | a descriptor is in the read set exactly when some non-negative entry asks for POLLIN or POLLPRI on it |
| Compat.WriteSetOf | libsmb2-git/lib/compat.c:341-353 | a descriptor is in the write set exactly when some non-negative entry asks for POLLOUT on it |
| Compat.ExceptSetOf | libsmb2-git/lib/compat.c:341-357 | every non-negative descriptor is in the exception set, and each lies below maxfd+1 |
| Compat.TimeoutOf | libsmb2-git/lib/compat.c:360-364 | select gets no timeout exactly when the poll timeout is negative |
| Compat.TimeoutSplits | libsmb2-git/lib/compat.c:360-364 | a non-negative timeout in milliseconds becomes whole seconds plus a microsecond part below one second that together denote the same time |
| Compat.ReventsBits | libsmb2-git/lib/compat.c:371-382 | POLLIN is reported exactly when reading was asked for and the descriptor stayed readable; likewise POLLOUT; POLLHUP exactly when it is in the exception set; nothing else, and nothing for a negative descriptor |
| Compat.Reported | libsmb2-git/lib/compat.c:383-388 | the count returned is at most the number of entries |
| Compat.BuildSets | libsmb2-git/lib/compat.c:337-364 | the first loop zeroes every revents, changes nothing else, and hands select the sets, maxfd and timeout of its specification |
| Compat.ReportEvents | libsmb2-git/lib/compat.c:370-388 | the second loop stores into each entry the events of its specification and returns how many entries got a non-zero result |
| Compat.Poll | libsmb2-git/lib/compat.c:330-389 | select's failure or timeout is returned with all revents zero; otherwise each entry reports what select left ready among the sets it was given, and the number of such entries is returned |
| Compat.Output | libsmb2-git/lib/compat.c:134 | random returns a value in 0..32767 |
| Compat.StepInvertible | libsmb2-git/lib/compat.c:133 | the 32-bit step can be undone (the multiplier is odd), so two different states never step to the same state |
| Compat.Rng.constructor | libsmb2-git/lib/compat.c:129 | the generator starts in state 1 |
| Compat.Rng.Random | libsmb2-git/lib/compat.c:131-135 | random advances the state by one wrapping step and returns bits 16-30 of the new state |
| Compat.Rng.Srandom | libsmb2-git/lib/compat.c:137-140 | srandom sets the state to the seed |
| CString.LenExists | src/smb2fs.c:76-83 | a terminated string has a length |
| CString.Len | src/smb2fs.c:76-83 | the length is the index of the first NUL |
| CString.Str | src/smb2fs.c:76-83 | the C string holds no NUL and is as long as its length |
| CString.LenIs | src/smb2fs.c:76-83 | a NUL at from+n with no NUL before it means the length is n |
| CString.LenFrom | src/smb2fs.c:66-74 | the string that starts p characters further in is the string with its first p characters dropped |
| CString.StrOfWritten | src/smb2fs.c:66-74 | characters followed by a NUL form exactly that string |
| CString.Overwritten | src/smb2fs.c:70-73 | writing characters at an offset changes only that range |
| CString.WrittenString | src/smb2fs.c:70-73 | writing characters and a terminating NUL at an offset leaves that string there and changes nothing else |
| CString.Terminate | src/smb2fs.c:73 | terminating a written run of characters leaves exactly that string there |
| CString.Reversed | src/smb2fs.c:29-50 | the reverse of a string is as long as the string |
| CString.ReversedAt | src/smb2fs.c:29-50 | character k of the reverse is character len-1-k of the string |
| CString.ReversedTwice | src/smb2fs.c:29-50 | reversing twice gives back the string |
| CString.TrimLeft | src/smb2fs.c:144-150 | dropping leading blanks keeps a suffix, and one that does not start with a blank |
| CString.TrimRight | src/smb2fs.c:151-154 | dropping trailing blanks keeps a prefix, and one that does not end with a blank |
| CString.TrimLeftSkips | src/smb2fs.c:144-150 | a scan that stops at the first non-blank gives the left-trimmed string |
| CString.TrimRightSkips | src/smb2fs.c:151-154 | a scan back to the last non-blank gives the right-trimmed string |
| CString.TrimLeftFixed | src/smb2fs.c:144-150 | a string that starts with a non-blank is left as it is |
| CString.TrimRightFixed | src/smb2fs.c:151-154 | a string that ends with a non-blank is left as it is |
| CString.TrimIdempotent | src/smb2fs.c:144-154 | trimming twice is trimming once, and the result neither starts nor ends with a blank |
| CString.StrLen | src/smb2fs.c:76-83 | strlen returns the index of the first NUL |
| CString.CopyTerminated | src/smb2fs.c:70-73 | the copy loop writes the source and a NUL at the offset and changes nothing else |
| CString.StrCat | src/smb2fs.c:66-74 | strcat puts the source after the old string, ends it with a NUL, leaves the rest of the buffer as it was, and the new string is the old one followed by the source |
| CType.IsUpper | include/ctype.h:31-34 | only A-Z are upper case |
| CType.IsLower | include/ctype.h:36-39 | only a-z are lower case |
| CType.IsAlpha | include/ctype.h:41-45 | a letter is upper or lower case, and nothing else is |
| CType.IsDigit | include/ctype.h:47-50 | exactly 0-9 are digits |
| CType.IsXDigit | include/ctype.h:52-57 | exactly the digits and a-f in either case are hex digits, all of them alphanumeric |
| CType.IsSpace | include/ctype.h:59-63 | exactly tab, line feed, vertical tab, form feed, carriage return and space are white space |
| CType.IsPrint | include/ctype.h:65-68 | exactly the ASCII codes 32-126 are printable |
| CType.IsGraph | include/ctype.h:70-73 | exactly the printable characters other than space are graphic |
| CType.IsBlank | include/ctype.h:75-78 | blanks are the white space other than line feed through carriage return, so every blank is white space |
| CType.IsCntrl | include/ctype.h:80-84 | exactly the ASCII codes that are not printable are control characters |
| CType.IsPunct | include/ctype.h:86-92 | exactly the graphic characters that are not alphanumeric are punctuation |
| CType.IsAlnum | include/ctype.h:94-99 | alphanumeric means letter or digit |
| CType.ToUpper | include/ctype.h:101-107 | a lower-case letter maps to its upper-case letter, 32 below; anything else is unchanged |
| CType.ToLower | include/ctype.h:109-115 | an upper-case letter maps to its lower-case letter, 32 above; anything else is unchanged |
| CType.CaseRoundTrip | include/ctype.h:101-115 | converting a letter to the other case and back gives it back, and exactly the letters have two different cases |
| CType.IsAscii | include/ctype.h:117-120 | exactly the values 0-127 are ASCII, whether the bits are read as unsigned or as signed |
| CType.ToAscii | include/ctype.h:122-125 | toascii keeps the low seven bits: the result is ASCII, and ASCII values are unchanged |
| HandlerMain.IsSpace | src/main.c:243-252 | the characters remove_double_quotes skips are exactly tab, line feed, vertical tab, form feed, carriage return and space |
| HandlerMain.Unquote | src/main.c:236-270 | the cleaned string is never longer than the original |
| HandlerMain.UnquoteOfQuoted | src/main.c:255-264 | a value wrapped in a pair of quotes is given back unwrapped |
| HandlerMain.UnquoteOfOpenQuote | src/main.c:255-264 | a lone opening quote is dropped and the rest is kept |
| HandlerMain.UnquoteLosesTypedQuote | src/main.c:255-264 | an opening quote with no closing quote (as the mount command passes it) makes a quote the user typed at the end disappear; the same string with its closing quote keeps it |
| HandlerMain.MemMove | src/main.c:267 | a move to a lower address copies the block there and leaves the rest as it was |
| HandlerMain.StripLeading | src/main.c:243-246 | the skipping loop stops at the first non-blank of the string |
| HandlerMain.StripTrailing | src/main.c:249-252 | the backward loop stops after the last non-blank, and keeps a non-blank first character |
| HandlerMain.TrimBounds | src/main.c:243-252 | the two loops bound exactly the trimmed string |
| HandlerMain.QuoteBounds | src/main.c:255-264 | after the quote checks the bounds enclose exactly the cleaned string |
| HandlerMain.UnquoteSlice | src/main.c:255-264 | each of the three quote cases gives the slice the code keeps |
| HandlerMain.RemoveDoubleQuotes | src/main.c:236-270 | the buffer then starts with the cleaned string and a NUL, and the rest of it is as it was |
| HandlerMain.MovedToFront | src/main.c:267-269 | moving the kept slice to the front and terminating it leaves exactly that string |
| HandlerMain.ReadStartupArgs | src/main.c:272-293 | a failed allocation sets ERROR_NO_FREE_STORE and parses nothing; otherwise the parser gets the cleaned start-up string followed by a line feed, with its length |
| HandlerMain.Smb2Context.constructor | src/main.c:155-161 | a new context has no share connected and has not been destroyed |
| HandlerMain.Smb2fs.constructor | src/main.c:151-153 | calloc leaves no context and not connected |
| HandlerMain.Truncated | src/main.c:193-200 | a copy into a buffer keeps at most its size minus one characters, as a prefix, and keeps all of a short string |
| HandlerMain.VolumeName | src/main.c:193-200 | the volume name is a prefix of the VOLUME argument, or of server-share without one, and fits the buffer |
| HandlerMain.Handler.constructor | src/main.c:144-207 | the handler starts without a file system |
| HandlerMain.Handler.Destroy | src/main.c:209-227 | destroy disconnects the share only when it was connected, destroys the context, clears it and `fsd`, and does nothing when `fsd` is already NULL |
| HandlerMain.Handler.Init | src/main.c:144-207 | the password is asked for only when the URL has none and NOPASSWORD is not set; init succeeds exactly when every step does; on success the share is connected and the volume name is chosen; every failure leaves `fsd` NULL |
| Marshalling.MaskIncarnation | src/marshalling.c:39 | the masked incarnation fits its bits |
| Marshalling.HandleFits | src/marshalling.c:98 | an incarnation and index that fit their bits make a handle below 2^32 |
| Marshalling.HandleRoundTrip | src/marshalling.c:120-129 | the index and incarnation read back from a handle are the ones it was made from (as line 98 packs them) |
| Marshalling.HandleOfParts | src/marshalling.c:120-129 | a handle whose incarnation fits is rebuilt exactly from its index and incarnation |
| Marshalling.HandleZeroIff | src/marshalling.c:120-129 | the handle is 0, the failure value, exactly for incarnation 0 and index 0 |
| Marshalling.HandleInjective | src/marshalling.c:98 | different (incarnation, index) pairs never give the same handle |
| Marshalling.StoreResolves | src/marshalling.c:67-75 | after a slot is stored its handle resolves to the new pointer, and handles with other indices resolve as before |
| Marshalling.AppendResolves | src/marshalling.c:93-98 | after an append the new handle resolves to the pointer, and every other handle resolves as before |
| Marshalling.Registry.constructor | src/marshalling.c:29-49 | a new registry is empty, has growSize NULL slots and no free list, and keeps the masked incarnation |
| Marshalling.Registry.HandleToPointer | src/marshalling.c:120-129 | a handle of another incarnation or beyond the used slots gives NULL, and otherwise its slot's pointer |
| Marshalling.Registry.AllocateHandleForPointer | src/marshalling.c:64-99 | a released slot is reused first; else the pointer is appended, growing the array when full; at MAX_INDEX or when growing fails the handle is 0 and nothing changes; the handle returned names the slot used |
| Marshalling.Registry.Grow | src/marshalling.c:80-91 | growing adds growSize slots and keeps every used slot |
| Marshalling.Registry.Reuse | src/marshalling.c:67-75 | the first free slot takes the pointer and leaves the free list |
| Marshalling.Registry.Append | src/marshalling.c:93-95 | the pointer goes in the next unused slot |
| Marshalling.Registry.RemoveHandle | src/marshalling.c:101-118 | a used slot is cleared and put at the head of the free list (when its node could be allocated); afterwards the handle resolves to NULL |
| Marshalling.Registry.FreeRegistry | src/marshalling.c:51-61 | the free list is emptied and the registry released |
| Marshalling.AllocateNewRegistry | src/marshalling.c:29-49 | the registry is NULL exactly when one of its two allocations fails; otherwise it is empty, with the masked incarnation |
| Marshalling.StaleHandleNeverResolves | src/marshalling.c:120-129 | a handle of another incarnation never resolves to a pointer |
| Marshalling.ReleaseThenAllocate | src/marshalling.c:64-118 | removing a live handle and allocating again gives the same handle back, now resolving to the new pointer |
| Mount.IsSpace | src/smb2fs.c:85-88 | the mount command's isspace accepts exactly space, tab, line feed and carriage return |
| Mount.IsSpaceNarrowerThanCType | src/smb2fs.c:85-88 | it is the ctype isspace without vertical tab and form feed |
| Mount.SwapEnds | src/smb2fs.c:29-50 | the string as the loop leaves it is as long as before |
| Mount.SwappedFully | src/smb2fs.c:40-48 | the loop's running swaps, carried to the end, leave the first and last characters exchanged |
| Mount.SwapLoop | src/smb2fs.c:40-48 | the loop as written, step by step |
| Mount.Reverse | src/smb2fs.c:29-50 | reverse as written exchanges only the first and last character of the string and leaves the rest of the buffer as it was |
| Mount.ReverseLoop | src/smb2fs.c:40-48 | the corrected loop reverses the range in place |
| Mount.ReverseCorrected | src/smb2fs.c:29-50 | the corrected reverse reverses the string and leaves the rest of the buffer as it was |
| Mount.SwapEndsShort | src/smb2fs.c:29-50 | for strings of up to three characters the code as written does reverse |
| Mount.ReverseAsWrittenFails | src/smb2fs.c:29-64 | with the code as written, 1234 is written as "1324" |
| Mount.ReverseAsWrittenBelow1000 | src/smb2fs.c:29-64 | with the code as written, every number below 1000 is still written correctly |
| Mount.DigitChar | src/smb2fs.c:58 | a digit value becomes a character 0-9 |
| Mount.Digits | src/smb2fs.c:52-64 | every number has at least one digit |
| Mount.RevDigits | src/smb2fs.c:56-60 | the do-while loop writes at least one digit |
| Mount.DigitsSound | src/smb2fs.c:52-64 | the decimal digits denote the number and have no leading zero |
| Mount.DigitsLength | src/smb2fs.c:52-64 | a number below 10^k has at most k digits |
| Mount.RevDigitsReversed | src/smb2fs.c:56-62 | the loop writes the decimal digits backwards |
| Mount.RevDigitsNoNul | src/smb2fs.c:56-62 | the digits contain no NUL |
| Mount.DigitsOfUint32 | src/smb2fs.c:52-64 | a 32-bit number has at most ten digits |
| Mount.WriteDigitsBackwards | src/smb2fs.c:56-60 | the loop writes the digits backwards at the offset and changes nothing else |
| Mount.NumText | src/smb2fs.c:52-64 | the text u32toa leaves, with reverse as written or corrected, is as long as the decimal digits |
| Mount.SwapEndsTwice | src/smb2fs.c:29-50 | exchanging the ends twice gives back the string |
| Mount.NumTextInjective | src/smb2fs.c:52-64 | with either reverse, different numbers leave different texts |
| Mount.NumTextOfUint32 | src/smb2fs.c:52-64 | with either reverse, the text of a 32-bit number has at most ten characters and no NUL |
| Mount.WriteBackwardsTerminated | src/smb2fs.c:54-61 | the digit loop and the NUL after it leave the backward digits as a string at the offset and change nothing else |
| Mount.ReverseDigits | src/smb2fs.c:63 | reversing the backward digits in place, with reverse as written or corrected, leaves that reverse's text of the number |
| Mount.NumTextIs | src/smb2fs.c:52-64 | the text is what the chosen reverse makes of the backward digits |
| Mount.U32toa | src/smb2fs.c:52-64 | with reverse as written or corrected, u32toa writes that reverse's text of the number and a NUL at the offset and changes nothing else; corrected, the text is the decimal digits |
| Mount.Reassembled | src/smb2fs.c:60-63 | rewriting the backward digits in place leaves the rewritten text and its NUL, and the rest of the buffer as before u32toa |
| Mount.DevNameInjective | src/smb2fs.c:128-133 | with either reverse, different numbers give different device names |
| Mount.DevNameBelow1000 | src/smb2fs.c:124-133 | the names the probe as written tries are the intended SMBn for every n below 1000, and number 1234 is tried as SMB1324 |
| Mount.ProbedNamesSplit | src/smb2fs.c:124-142 | one more probe adds exactly one name to those tried |
| Mount.ProbedNamesCount | src/smb2fs.c:124-142 | n probes look at n different names |
| Mount.ProbeStep | src/smb2fs.c:124-142 | while every probed name is taken, the number of probes stays below the number of taken names |
| Mount.DevNameWritten | src/smb2fs.c:128-133 | writing the number after "SMB" in the 16-byte buffer gives "SMB" followed by the number's text |
| Mount.ProbeDeviceName | src/smb2fs.c:124-142 | with reverse as written or corrected, the name found is the first name of the probe sequence that is not taken, followed by a colon; as written, below SMB1000 that is the first free SMBn (DevNameBelow1000) |
| Mount.StripLeading | src/smb2fs.c:144-150 | the skipped characters are exactly the leading blanks, and the length shrinks by as many |
| Mount.StripTrailing | src/smb2fs.c:151-154 | the length shrinks by exactly the trailing blanks |
| Mount.TrimArgs | src/smb2fs.c:144-154 | the start and length enclose exactly the trimmed argument string |
| Mount.WrapArgs | src/smb2fs.c:156-167 | as written: the NUL overwrites the closing quote, so the handler gets an opening quote and the arguments only |
| Mount.WrapArgsQuoted | src/smb2fs.c:156-167 | corrected: the handler gets the arguments between a pair of quotes |
| PasswordReq.StrMoved | src/gadtools/password-req.c:42-62 | a string move keeps the buffer's length |
| PasswordReq.StrMovedString | src/gadtools/password-req.c:42-62 | after the move the string at the destination is the string that was at the source, and everything before the destination is unchanged |
| PasswordReq.MoveLeft | src/gadtools/password-req.c:49-52 | the forward copy loop performs the move to a lower address |
| PasswordReq.MoveRight | src/gadtools/password-req.c:53-60 | the backward copy loop performs the move to a higher address |
| PasswordReq.StrMove | src/gadtools/password-req.c:42-62 | strmove performs the move in either direction |
| PasswordReq.Refused | src/gadtools/password-req.c:99-102 | an unknown edit clears SGA_USE, sets SGA_BEEP and keeps every other action bit |
| PasswordReq.SGWork.Refuse | src/gadtools/password-req.c:99-102 | the actions become the refused actions |
| PasswordReq.SGWork.constructor | src/gadtools/password-req.c:64-111 | the hook's view of the string gadget's work structure |
| PasswordReq.ReplaceChar | src/gadtools/password-req.c:88-91 | the typed character replaces the real character at the cursor, and the visible buffer shows `*` there |
| PasswordReq.InsertRoom | src/gadtools/password-req.c:53-60 | an insert into a hidden string of L characters fits exactly when the buffer has L+3 places (and the move's count fits a WORD); in the 256-byte buffer, exactly when L is at most 253 |
| PasswordReq.InsertChar | src/gadtools/password-req.c:93-97 | the real string is moved one place up and gets the typed character at the cursor, and the visible buffer shows `*` there |
| PasswordReq.DeleteEdit | src/gadtools/password-req.c:79-86 | the deleted characters are removed from the real string by moving its tail down, and nothing happens when nothing was deleted |
| PasswordReq.CharEdit | src/gadtools/password-req.c:88-102 | replace and insert edit both buffers as above; any other edit changes neither and refuses |
| PasswordReq.EditHook | src/gadtools/password-req.c:64-111 | the hook answers only key messages; no-op edits change nothing; deletes, replaces and inserts mirror into the real buffer; unknown edits refuse |
| PasswordReq.InsertMirrors | src/gadtools/password-req.c:93-97 | an insert puts the typed character into the real string at the cursor |
| PasswordReq.DeleteMirrors | src/gadtools/password-req.c:79-86 | a delete removes exactly the deleted characters from the real string |
| PasswordReq.DeleteSlices | src/gadtools/password-req.c:79-86 | the delete's move leaves the string before and after the gap joined |
| PasswordReq.ReplaceMirrors | src/gadtools/password-req.c:88-91 | a replace changes exactly the character at the cursor |
| PasswordReq.InsertThenDelete | src/gadtools/password-req.c:79-97 | inserting a character and deleting it again gives back the real string |
| AmigaTime.UnixSeconds | src/time.c:58 | a Unix time is the Amiga time shifted by the epoch offset and the GMT offset in seconds |
| AmigaTime.UnixSecondsRoundTrip | src/time.c:31 | the shift can be undone, and the offset is the 2922 days between 1970 and 1978 |
| AmigaTime.UnixSecondsMonotone | src/time.c:58 | the conversion keeps the distance between two times |
| AmigaTime.TimeValCell.constructor | src/time.c:72 | a fresh timeval |
| AmigaTime.TimeZoneCell.constructor | src/time.c:61-65 | a fresh timezone |
| AmigaTime.TimeCell.constructor | src/time.c:77-78 | a fresh time_t |
| AmigaTime.GetTimeOfDay | src/time.c:33-68 | the seconds become Unix time and the microseconds are kept; the zone reports the GMT offset with an unknown daylight saving state; a NULL pointer is skipped; the result is always 0 |
| AmigaTime.Time | src/time.c:70-81 | time returns the Unix seconds of gettimeofday and stores them through a non-NULL pointer |
| Utimens.Div1000 | src/smb2_utimens.c:367-370 | the division truncates toward zero, as C does |
| Utimens.UpdateTimes | src/smb2_utimens.c:367-370 | only the write and change times are replaced, both by the new modification time in microseconds; creation, access and attributes are kept |
| Utimens.UpdateTimesKeepsOnly | src/smb2_utimens.c:359-370 | two queried records give the same record to set exactly when they agree on what is kept |
| Utimens.AggregateIsFirstFailure | src/smb2_utimens.c:50-89 | folding the replies into the record's status gives its first failure, or the first failing reply when it had none |
| Utimens.FirstFailureIs | src/smb2_utimens.c:174-205 | the status is success exactly when every reply succeeded, and otherwise it is the first failing reply |
| Utimens.CompoundReports | src/smb2_utimens.c:50-205 | the three callbacks of either compound report the first failing reply, and the status before CLOSE is success exactly when the first two replies succeeded |
| Utimens.SyncData.constructor | src/smb2_utimens.c:333-338 | a zeroed waiting record is not finished |
| Utimens.SyncData.GenericStatusCb | src/smb2_utimens.c:289-296 | the callback marks the wait finished and records the status and the data pointer |
| Utimens.StatData.constructor | src/smb2_utimens.c:99-104 | the stat record starts at success with no information |
| Utimens.StatData.StatCb1 | src/smb2_utimens.c:50-58 | the CREATE reply is folded into the status |
| Utimens.StatData.StatCb2 | src/smb2_utimens.c:60-76 | the QUERY_INFO reply is folded into the status, and the information is taken only when the status is still success |
| Utimens.StatData.StatCb3 | src/smb2_utimens.c:78-89 | the CLOSE reply is folded in, the caller's callback gets minus the errno of the status and the information, and the record is freed |
| Utimens.SetData.constructor | src/smb2_utimens.c:207-221 | the set record starts at success |
| Utimens.SetData.SetCb1 | src/smb2_utimens.c:174-182 | the CREATE reply is folded into the status |
| Utimens.SetData.SetCb2 | src/smb2_utimens.c:184-192 | the SET_INFO reply is folded into the status |
| Utimens.SetData.SetCb3 | src/smb2_utimens.c:194-205 | the CLOSE reply is folded in, the caller's callback gets minus the errno of the status and no data, and the record is freed |
| Utimens.StatData.Service | src/smb2_utimens.c:50-89 | delivering the three replies of the stat compound runs its callbacks in order: the record is freed and the caller's callback gets minus the errno of the first failing reply, with the information exactly when CREATE and QUERY_INFO succeeded |
| Utimens.SetData.Service | src/smb2_utimens.c:174-205 | delivering the three replies of the set compound runs its callbacks in order: the record is freed and the caller's callback gets minus the errno of the first failing reply and no data |
| Utimens.ZeroStatusMeansSuccess | src/smb2_utimens.c:78-89 | when the errno mapping gives 0 only for success, a completion status of 0 means every reply succeeded and a stat completion then carries the information; with success mapped to 0 the converse holds |
| Utimens.TerminatesTail | src/smb2_utimens.c:298-324 | a wait that does not end this round still ends later |
| Utimens.Wait | src/smb2_utimens.c:298-324 | the wait returns 0 or -1, and 0 only once the replies were delivered |
| Utimens.WaitRepolls | src/smb2_utimens.c:305-312 | a poll round with no events changes nothing |
| Utimens.WaitSucceedsIff | src/smb2_utimens.c:298-324 | the wait succeeds exactly when the round that ends it had a successful poll and service and delivered the replies, and then it reports those replies |
| Utimens.WaitForReply | src/smb2_utimens.c:298-324 | the loop returns what the wait specification says; when replies were delivered the waiting record is finished with the completion the compound's callbacks compute from them; a success means the record is finished |
| Utimens.StatFailureSendsNoSet | src/smb2_utimens.c:340-357 | when the stat compound is not answered with every reply succeeding, no set compound is sent, a non-zero result is returned, and for an answered compound it is minus the errno of the first failing reply |
| Utimens.SetCarriesQueriedInfo | src/smb2_utimens.c:326-393 | at most two compounds are sent, the first being the stat compound; a second is sent only after every stat reply succeeded and sets exactly the queried information with the new times; 0 is returned only when every reply of the set compound succeeded |
| Utimens.UtimensSucceeds | src/smb2_utimens.c:326-393 | when both compounds are answered with every reply succeeding and success maps to errno 0, smb2_utimens returns 0 after sending both |
| Utimens.Client.constructor | src/smb2_utimens.c:326 | a client with nothing queued or allocated |
| Utimens.Client.SendCompoundStat | src/smb2_utimens.c:91-165 | the stat compound is queued with a fresh record exactly when all three commands are built; any failure frees what was built and returns -1 |
| Utimens.Client.SendCompoundSet | src/smb2_utimens.c:207-281 | the set compound is queued with a fresh record exactly when all three commands are built; any failure frees what was built and returns -1 |
| Utimens.Client.Send | src/smb2_utimens.c:91-281 | a send queues its compound exactly when it returns 0, and then hands back the fresh record of that compound, tied to the waiting record |
| Utimens.Client.ExchangeAsWritten | src/smb2_utimens.c:333-389 | as written: a failed send returns -1 and leaves the waiting record allocated |
| Utimens.Client.Exchange | src/smb2_utimens.c:333-389 | corrected: a failed allocation gives -ENOMEM, a failed send -1 with nothing left allocated, a failed wait -1 with STATUS_CANCELLED recorded, and a reply 0 with the completion the callbacks compute from the replies |
| Utimens.Client.SmbUtimens | src/smb2_utimens.c:326-394 | smb2_utimens returns what its specification gives and queues exactly the compounds it says |

## Left out

- I/O, the network, the GUI and the DOS packet loop are not modelled. Each
  outcome the core depends on is a parameter: allocation success, the bytes
  a `read` returns, `write`'s result, what `select` reports, each
  poll/service round, the server's replies, the clock and the GMT offset,
  the password prompt's answer and the URL parser's result.
- `smb2_parse_url`, `smb2_connect_share`, `request_password`, the
  `ReadArgs` parsing after `read_startup_args` and `smb2fs_main` are
  outside this model. They appear only through their outcomes.
- `strdup`, `asprintf`, `be64toh`, `iop_connect` and the PS3 address
  functions in compat.c are not part of this model. They are not used by
  the platform this handler targets.
- The Amiga `smb2_getaddrinfo` and `smb2_freeaddrinfo` in compat.c (lines
  43-89) are not modelled: they wrap `sscanf`, `gethostbyname` and socket
  address structures, which are outside this model.
- `nterror_to_errno` is a parameter of the final callbacks, and the
  messages passed to `smb2_set_error` are not modelled.
- Frees are not modelled as memory. The waiting records and the PDU chains
  are counted (`liveRecords`, `livePdus`, `liveSync`, `freed`), and freeing
  a PDU chain is taken to free every PDU added to it.
- Marshalling.Registry.FreeRegistry: records only that the free list is
  emptied and the registry released; freeing the pointer array and the
  list nodes is not modelled.
- Marshalling: the configuration in marshalling.h (index bits, incarnation
  bits, grow step) is a `Config` value with its validity conditions, not
  fixed constants.
- Utimens.Client.SmbUtimens: the caller's callback is always
  `generic_status_cb`, as `smb2_utimens` passes it. The connection rounds
  are a script that is required to end, so the model does not cover a wait
  that never returns.
- Utimens.UtimensOf: requires that `nterror_to_errno` maps only success to
  0 (`OnlySuccessIsZero`); the same holds for Utimens.Client.SmbUtimens.
  The three replies of a compound are delivered together, in one service
  round.
- AmigaTime.GetTimeOfDay: `tv_sec` is an unbounded integer; overflow of a
  32-bit `time_t` is not modelled.
- Compat.Readv: overlapping iovec segments are excluded (segments are
  distinct arrays), so aliasing between segments is not captured.
- Compat.Poll: the POLLIN/POLLPRI/POLLOUT/POLLHUP values are the usual
  poll.h ones, because the platform header is not part of this model.
  Descriptors in a set are plain integers, with no FD_SETSIZE limit.
- Mount.ProbeDeviceName: the DOS device list is the set `found` of names
  already in use; locking the list and adding the new device are not
  modelled.
- PasswordReq: the requester window, its gadgets and the 256-byte buffer's
  allocation are not modelled. Only the edit hook and `strmove` are.
- PasswordReq.EditHook: requires that every move fits the hidden buffer
  (`MoveFits`). For an insert this means at most 253 characters before
  it in the 256-byte buffer (PasswordReq.InsertRoom). The gadget is
  created with `GTST_MaxChars` 255 (password-req.c:196). If GadTools lets
  it hold 255 characters, inserting the 255th makes the do/while of
  `strmove` write `buffer[256]`, one byte past the buffer. Whether GadTools
  allows that is outside this model, so the case is excluded, not modelled.
- HandlerMain.Handler.Init: the debug output and `smb2_set_security_mode`
  are not modelled. Nor are the URL left undestroyed on the early failure
  paths and the file system's other fields.
- CType: models the replacement functions the header defines for AROS.
  Other targets use the system's own ctype.h, which is not part of this
  model.

## Findings

| source | as written | input that shows it | evidently intended | confidence | as-written member | corrected member |
|---|---|---|---|---|---|---|
| src/smb2fs.c:40-48 | the loop of `reverse` tests `end > str` instead of `end > start`, so it runs past the middle and swaps every inner pair a second time, putting it back; only the first and last characters end up exchanged | `u32toa(1234)` writes "1324" | reverse the whole string, so that `u32toa` writes the number's decimal digits | high, not executed | Mount.Reverse | Mount.ReverseCorrected |
| src/smb2fs.c:164-167 | the closing quote is written at the position the terminating NUL then overwrites, so the handler receives an opening quote only; `remove_double_quotes` then removes a quote the user typed at the end | arguments `x"` reach the handler as `x` | wrap the arguments in a pair of quotes and terminate after the closing quote | high, not executed | Mount.WrapArgs | Mount.WrapArgsQuoted |
| src/smb2_utimens.c:340-382 | when sending a compound fails (lines 340-343 and 379-382), `smb2_utimens` returns -1 without freeing the waiting record it allocated | any send failure, for instance a failed PDU allocation | free the waiting record before returning | high, not executed | Utimens.Client.ExchangeAsWritten | Utimens.Client.Exchange |
| libsmb2-git/lib/compat.c:244 | `((ssize_t)-1) - bytes` (here and at line 291 in readv) is computed as size_t, so the overflow check admits totals up to SIZE_MAX instead of SSIZE_MAX | one iovec of 2^31 bytes on a 32-bit target passes the check | refuse totals above SSIZE_MAX with EINVAL | medium, not executed | Compat.SumLengthsAsWritten | Compat.SumLengths |
