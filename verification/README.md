# Verified models of the Fuzix support libraries

Dafny models of eleven algorithms that the emulator's C library, and the emulator itself, depend on, each proved
against an independent statement of what it is for:

- **Regular expressions** (`libs/regexp.c`). The compiler writes its program, byte by byte, into an array; the matcher
  runs that program by backtracking. A declarative grammar (`RegexSyntax`) says which text spells which tree, and a
  semantics (`RegexLanguage`) says where a tree matches. Compiling a pattern and searching a string with the result
  finds a match exactly when the semantics has one, the leftmost one; the matcher terminates on every compiled
  program; and of all derivations there (`RegexTraces`) it reports the one that prefers left alternatives and more
  repetitions (`RegexRanking`): the end of the match, and for each group where it was last opened and closed. What
  common patterns find is stated once more without trees, by their text (`RegexPatterns`).
- **The heap** (`libs/malloc.c`). Every call keeps the free list one ascending cycle without two neighbours that
  touch, and free and allocated blocks a partition of the memory obtained. `malloc` terminates, finds the next fit and
  fails only when it has to; `free` undoes it.
- **Domain names** (`libs/resolv.c`, name functions). Text to wire form and back, compression and decompression, for
  every name, message and table of pointers (RFC 1035, sections 3.1, 4.1.4 and 5.1).
- **Exact remainders** (`libs/fmod.c`, `libs/remquo.c`). A double is its two words; its value is an integer in units
  of 2^-1074. The results are exact on every finite input, subnormal ones included.
- **AES-256** (`libs/aes256.c`). In-place rounds and key schedule against FIPS 197, sections 5.1 to 5.3; decryption
  undoes encryption whatever the context is used for in between. `Fips197` states the standard on its own terms, and
  `Fips197Example` works its example for a 256-bit key.
- **Quicksort** (`libs/qsort.c`). A sorted permutation for every total preorder, with the unguarded scan in bounds
  and recursion no deeper than the logarithm of the length.
- **Smaller pieces**: the stack image of an emulated program (`emulators/syscalls.c`), the history store and line
  buffer of readline (`libs/readline.c`), dates (`libs/gmtime_r.c`) and the 48-bit generator (`libs/lrand48.c`).

Code that the library writes as loops over shared memory is modelled as methods over arrays and classes with the same
fields; each is tied to a specification function or predicate, and lemmas prove what that specification promises.
`dafny verify dfyconfig.toml` checks everything.

| files | contents |
|---|---|
| `CTypes` | bytes, characters and powers of two, for all |
| `RegexLanguage`, `RegexTraces`, `RegexRanking` | trees and what they match; derivations with their parentheses; their order of preference |
| `RegexGrammar`, `RegexGroups`, `RegexSyntax` | the parser; its numbering of groups; the grammar |
| `RegexCode`, `RegexLinks`, `RegexBuild`, `RegexCompiler` | programs; their links; building them; `regcomp`'s passes |
| `RegexCont`, `RegexSteps`, `RegexMatcher`, `RegexHints`, `Regex` | `regmatch` against continuations; hints; `regcomp` and `regexec` |
| `RegexPatterns` | what patterns find, in terms of their text |
| `Malloc` | the heap |
| `DnsName`, `DnsText`, `DnsMessage`, `DnsPack` | names; their text; their place in a message; packing and unpacking |
| `DoubleWords`, `DoubleScale`, `Fmod` | two-word integers; values of doubles; `fmod` and `remquo` |
| `AesBytes`, `Aes`, `Fips197`, `Fips197Example`, `AesCode` | bytes; rounds and running key; the standard; its example; the code in place |
| `Qsort`, `ArgEnv`, `Readline`, `Gmtime`, `Rand48` | one library file each |

## Model

| member | source | states |
|---|---|---|
| `Regex.Search` | libs/regexp.c:189-263 | A pattern compiles exactly when memory can be had and it has a tree of the grammar whose program is below 32767 bytes; then a search finds something exactly when that tree matches somewhere in the string |
| `Regex.ParseIsPattern` | libs/regexp.c:274-544 | What the parser accepts, and the tree it finds, are what the declarative grammar says: both directions, for every text |
| `RegexPatterns.TextFound` | libs/regexp.c:132-133 | A text with a backslash in front of each of the eleven metacharacters in it is found in exactly the strings it occurs in; with ^ in front, in those that start with it; with $ behind, in those that end with it |
| `RegexPatterns.RepetitionFound` | libs/regexp.c:400-426 | A group with such a text and *, +, ? or nothing behind it, between anchors, finds exactly the strings that are the text any number of times, at least once, at most once or once |
| `RegexPatterns.TailFound` | libs/regexp.c:523-529 | Without a group the operator takes the last character alone |
| `RegexPatterns.EitherFound` | libs/regexp.c:295-322 | Two texts with | between them in a group, between anchors, find exactly these two strings |
| `RegexPatterns.DotsFound` | libs/regexp.c:456-459 | n dots between anchors find exactly the strings of n characters |
| `RegexPatterns.RangeFound` | libs/regexp.c:460-494 | A range in brackets, between anchors, finds exactly one character from its first to its last, or with ^ one outside |
| `RegexPatterns.TextPattern` | libs/regexp.c:511-539 | The tree of such a text with or without anchors: it matches the text where it is, and takes at most five bytes for each character |
| `RegexPatterns.TextCompiles` | libs/regexp.c:189-210 | So every text of up to 6550 characters compiles |
| `RegexPatterns.PlainCompiles` | libs/regexp.c:208-210 | Without metacharacters exactly those of up to 32755 characters do |
| `RegexSyntax.ParserIsExact` | libs/regexp.c:274-544 | The same for the whole parser with the numbering of groups; every successful parse is of a text the grammar derives |
| `RegexSyntax.OneTree` | libs/regexp.c:434-544 | The grammar is unambiguous, including the rule by which a literal gives its last character to a repetition |
| `RegexSyntax.BodyParsed` | libs/regexp.c:471-491 | The loop over a bracket expression ends at the first ] behind one in front, collects the characters listed up to there, and fails exactly if a range among them is out of order |
| `RegexSyntax.BodyOpen` | libs/regexp.c:488-490 | Without a ] it fails |
| `RegexSyntax.MembersNamed` | libs/regexp.c:471-486 | Spelled out, a bracket expression lists exactly the characters it names |
| `RegexSyntax.BracketMatches` | libs/regexp.c:460-494 | A bracket expression matches one character that it names, singly or in a range, or after ^ one that it does not |
| `RegexSyntax.LiteralParsed` | libs/regexp.c:519-539 | A literal by the rule of the grammar is exactly as long as the parser takes it to be |
| `RegexGrammar.RangeSnoc` | libs/regexp.c:481-482 | A range written member by member grows by one at its upper end |
| `RegexLanguage.StarIsUnionOfPowers` | libs/regexp.c:80-81 | x* matches what some number of matches of x in a row, empty ones allowed, match |
| `RegexLanguage.HasWidthSound` | libs/regexp.c:140-146 | An expression flagged HASWIDTH never matches the empty string |
| `RegexLanguage.HasWidthExact` | libs/regexp.c:140-146 | Of the trees that patterns have, exactly those that match the empty string are not flagged |
| `RegexCode.CodeMoved` | libs/regexp.c:596-600 | Code may be moved, as reginsert does with an operand: with all its bytes shifted it is the code of the same tree at the new address |
| `RegexBuild.CodeInserted` | libs/regexp.c:585-606 | After an insertion the operand is the same code three bytes on, with the new operator and a null link in front |
| `RegexCode.CodeLinked` | libs/regexp.c:629-634 | Setting the link of the last node of a chain makes unlinked code fall through to that address, and changes nothing else about it |
| `RegexCode.CodeLeads` | libs/regexp.c:620-627 | Following links from the first node of any piece of code ends at its last node, as the walk in regtail needs |
| `RegexCode.ChoiceHooked` | libs/regexp.c:320-322 | Hooking one more alternative: its tail now leads to the closing node, the others are as before |
| `RegexLinks.ProgramLinks` | libs/regexp.c:108-116 | Every link of a compiled program leads to the start of another node of it, forwards except from BACK |
| `RegexBuild.StarBuilt` | libs/regexp.c:409 | The last step of the encoding of a complex x*: with the node for nothing tied to the end it is complete |
| `RegexBuild.PlusBuilt` | libs/regexp.c:418 | The same for a complex x+ |
| `RegexBuild.OptBuilt` | libs/regexp.c:425 | The same for x?, whose operand is tied last |
| `RegexCompiler.Compiler.RegNode` | libs/regexp.c:546-567 | Emits an opcode and a null link, or counts three bytes |
| `RegexCompiler.Compiler.RegC` | libs/regexp.c:569-578 | Emits a byte, or counts one |
| `RegexCompiler.Compiler.RegInsert` | libs/regexp.c:580-606 | The operand moves up by three bytes and the operator takes its place; nothing below changes |
| `RegexCompiler.Compiler.RegTail` | libs/regexp.c:608-635 | Walks to the last node of the chain and sets its link, with the sign that BACK needs; a no-op when counting |
| `RegexCompiler.Compiler.RegOptail` | libs/regexp.c:637-646 | The same on the operand of a BRANCH; a no-op for anything else |
| `RegexCompiler.Compiler.RegNext` | libs/regexp.c:994-1012 | The address a link leads to, backwards from BACK, NULL if there is none |
| `RegexCompiler.Compiler.EmitStar` | libs/regexp.c:403-409 | Turns the code of x just emitted into that of x*, in place |
| `RegexCompiler.Compiler.EmitPlus` | libs/regexp.c:412-418 | Turns it into that of x+ |
| `RegexCompiler.Compiler.EmitOpt` | libs/regexp.c:419-426 | Turns it into that of x? |
| `RegexCompiler.Compiler.RegAtom` | libs/regexp.c:434-544 | Fails exactly when no atom can be parsed; otherwise emits the code of its tree, or counts exactly the bytes of that code, and returns its flags |
| `RegexCompiler.Compiler.RegClass` | libs/regexp.c:469-491 | Emits the members of a bracket expression, ranges spelled out, and fails exactly on an invalid range or a missing bracket |
| `RegexCompiler.Compiler.RegPiece` | libs/regexp.c:371-432 | The same for an atom with a possible repetition |
| `RegexCompiler.Compiler.RegBranch` | libs/regexp.c:338-369 | The same for a sequence of pieces, tied together behind a BRANCH |
| `RegexCompiler.Compiler.Reg` | libs/regexp.c:265-336 | The same for a group or a whole pattern. As one contract covers counting and emitting, the first pass counts the bytes the second one writes |
| `RegexTraces.DerivesMatches` | libs/regexp.c:827-899 | Whatever has a derivation, parentheses noted, is a match |
| `RegexTraces.MatchesDerives` | libs/regexp.c:827-899 | Every match has a derivation |
| `RegexRanking.RankedExact` | libs/regexp.c:883-929 | What is ranked from a position, left alternatives and more repetitions first, are exactly the derivations there |
| `RegexRanking.AltPrefers` | libs/regexp.c:888-896 | The first choice is that of the left alternative if it matches at all, otherwise that of the right one |
| `RegexRanking.OptPrefers` | libs/regexp.c:419-426 | The first choice is to take an optional operand, if it matches at all |
| `RegexRanking.LoopEnds` | libs/regexp.c:917-928 | The first choice for a loop ends only where one more round could not move on |
| `RegexRanking.PlusPrefers` | libs/regexp.c:412-418 | That for at least one round makes the preferred first round and goes on as a loop from there |
| `RegexRanking.CatPrefers` | libs/regexp.c:768-790 | That for a sequence is the earliest choice for its first part from which the second part matches, and the preferred one from there |
| `RegexTraces.LastOpenIs` | libs/regexp.c:839-849 | The start reported for a group is where its last opening parenthesis was passed |
| `RegexTraces.LastCloseIs` | libs/regexp.c:866-877 | And the end where its last closing one was |
| `RegexSteps.NthRanked` | libs/regexp.c:888-896 | In a choice, what leads through an earlier alternative ranks before what leads through a later one |
| `RegexSteps.LoopsDown` | libs/regexp.c:917-928 | With a simple operand the rank goes from the longest run down |
| `RegexGroups.GroupsEnclose` | libs/regexp.c:834-881 | In any derivation the last parentheses of each group enclose text that its body matches, or the group was never passed |
| `RegexGroups.RegNumbered` | libs/regexp.c:284-292 | Groups are numbered from left to right by opening parenthesis, each number once |
| `RegexHints.SpineText` | libs/regexp.c:241-259 | A literal on the chain of links of the only branch occurs in every match |
| `RegexHints.SpineNext` | libs/regexp.c:252 | Following links from a node of that chain stays on it until the end |
| `Regex.DigOut` | libs/regexp.c:226-260 | The first character, the anchor and the required literal are noted exactly when the rules say so, and are sound |
| `Regex.LongestLiteral` | libs/regexp.c:242-259 | The longest literal on the chain, the last of several equally long ones; NULL exactly if there is none |
| `Regex.RegComp` | libs/regexp.c:189-263 | Compiles exactly the patterns that are small enough; the program has exactly the bytes counted and is the code of the tree, with sound hints |
| `RegexSteps.CodeFirstOp` | libs/regexp.c:235-239 | The first opcode of the code of a tree, which decides the hints |
| `RegexSteps.StartsWith` | libs/regexp.c:235-237 | If code starts with a literal, every match starts with its first character |
| `RegexSteps.StartsAtBol` | libs/regexp.c:238-239 | If code starts with the anchor, every match starts at position 0 |
| `RegexSteps.NextChar` | libs/regexp.c:908-920 | The lookahead of STAR and PLUS is sound: where the next character differs, the rest has no match |
| `RegexSteps.RunIterates` | libs/regexp.c:950-992 | A simple operand iterates to every position up to the length of its longest run, and to no other |
| `RegexSteps.RepeatMatches` | libs/regexp.c:901-928 | What a simple x* or x+ matches, by number of repetitions from the minimum to the run |
| `RegexMatcher.TextCmp` | libs/regexp.c:799-811 | Comparing a NUL-terminated literal with the subject tells exactly whether it is there |
| `RegexMatcher.TextChr` | libs/regexp.c:813-822 | Searching the text of a bracket expression tells exactly whether a character is in it |
| `RegexMatcher.AllTried` | libs/regexp.c:883-899 | The ways ahead from a set of branches are those through the first, then those through the second, and so on, with none left over |
| `RegexMatcher.Matcher.RegMatch` | libs/regexp.c:768-948 | Terminates on every compiled program and string. Success reports the first of all ways for the rest of the expression to match from here, in order of preference: the input stands where it ends, and every group pointer is at the last parenthesis of its group in it. Failure means that there is none, and leaves all groups untouched |
| `RegexMatcher.Matcher.MatchOpen` | libs/regexp.c:827-854 | The start of a group is noted after the rest has matched, unless a later round of it has: the pointer is that of the last round |
| `RegexMatcher.Matcher.MatchClose` | libs/regexp.c:855-882 | The same for the end of a group |
| `RegexMatcher.Matcher.MatchBranch` | libs/regexp.c:883-900 | Alternatives are tried in order from the same position; the first that leads to a match decides, and all have to fail for a failure |
| `RegexMatcher.Matcher.MatchRepeat` | libs/regexp.c:901-929 | Repetitions are tried from the most to the fewest; the first number with which the rest matches decides, and the lookahead skips only hopeless ones |
| `RegexMatcher.Matcher.RegRepeat` | libs/regexp.c:950-992 | The length of the longest run of a simple operand |
| `Regex.RegTry` | libs/regexp.c:731-756 | A match starts at a position exactly when the language has one there; the end and the groups reported are those of the preferred derivation |
| `Regex.GroupsReported` | libs/regexp.c:731-756 | After a match each group has both pointers, around text that its body matches, or neither |
| `Regex.Appears` | libs/regexp.c:692-702 | Tells exactly whether the required string occurs |
| `Regex.RegExec` | libs/regexp.c:673-729 | Finds the leftmost match if there is one and reports the preferred derivation there, whatever the hints: they never change the answer |
| `Regex.TryEachStart` | libs/regexp.c:713-719 | Trying only where the first character is right loses no match |
| `Regex.TryAll` | libs/regexp.c:720-725 | The general loop tries every start, the end of the string included |
| `Malloc.Merged` | libs/malloc.c:125-133 | Two blocks that touch can be made one without disturbing the partition of memory |
| `Malloc.Split` | libs/malloc.c:93-99 | A block can be split, the end becoming a block of its own |
| `Malloc.Grown` | libs/malloc.c:66-71 | Memory beyond the break can become a block |
| `Malloc.SameMemorySameList` | libs/malloc.c:113-138 | The free units alone determine the free list and every size in it |
| `Malloc.FreeIs` | libs/malloc.c:113-138 | A unit is free exactly when it lies between the bounds of memory and in no allocated block |
| `Malloc.FitsIs` | libs/malloc.c:88-89 | A request fits exactly when that many units in a row are free |
| `Malloc.NextFitIs` | libs/malloc.c:86-109 | The block found is the one before which, going round by address from the roving pointer, no free block is large enough |
| `Malloc.TiledOrder` | libs/malloc.c:113-138 | Blocks do not overlap |
| `Malloc.Units` | libs/malloc.c:80-84 | The number of units holds the request and the header, and no smaller number does |
| `Malloc.GrowthIs` | libs/malloc.c:51-52 | What the break moves by is at least the units wanted and all that 512 bytes hold, and no more than the larger of the two |
| `Malloc.TakenWhole` | libs/malloc.c:90-92 | Unlinking a block of the right size keeps the list and allocates exactly its units |
| `Malloc.TakenTail` | libs/malloc.c:93-100 | Splitting a larger one keeps the list and allocates exactly its last units |
| `Malloc.ForwardMerged` | libs/malloc.c:124-127 | Absorbing the block behind |
| `Malloc.BackMerged` | libs/malloc.c:130-133 | Being absorbed by the block before |
| `Malloc.AllPassed` | libs/malloc.c:105-109 | When the search is back at its start, no block is large enough |
| `Malloc.Heap.constructor` | libs/malloc.c:16-18 | An empty heap is well formed |
| `Malloc.Heap.FindPlace` | libs/malloc.c:120-123 | From any start the search terminates at the free block that the freed one belongs behind |
| `Malloc.Heap.MergeForward` | libs/malloc.c:124-129 | The units of the block become free; with what follows it is one block if the two touch |
| `Malloc.Heap.MergeBack` | libs/malloc.c:130-137 | Back on the list the heap is well formed, with the same free units |
| `Malloc.Heap.Free` | libs/malloc.c:113-138 | Exactly the units of the block become free, no other allocated block changes, and the heap stays well formed |
| `Malloc.Heap.BrkMore` | libs/malloc.c:52-73 | Moves the break by the larger of the request and what 512 bytes hold, and fails exactly when it cannot be moved that far; otherwise exactly the new units are free, and a block of the size asked for is |
| `Malloc.Heap.Take` | libs/malloc.c:89-104 | Allocates the end of a block on the list |
| `Malloc.Heap.Malloc` | libs/malloc.c:75-111 | Terminates; fails exactly on overflow, or if neither the heap nor the break has room; otherwise the block was free, or is new, has the units needed, and without growth it is the next fit |
| `Malloc.Heap.MallocFree` | libs/malloc.c:101-102 | Giving a block back at once leaves the free list and all sizes as they were |
| `Malloc.Wraps` | libs/malloc.c:63-65 | Whether and how a sum of two words wraps, which makes the overflow checks exact |
| `DnsName.ReadShown` | libs/resolv.c:169-250 | Reading undoes showing for every legal name, the root, special characters and \\DDD bytes included |
| `DnsName.ReadLegal` | libs/resolv.c:265-367 | Only legal names are read: labels of at most 63 bytes, names of at most 255 |
| `DnsName.EscapedIs` | libs/resolv.c:78-101 | Exactly six characters are shown with a backslash; what is not printable as three decimal digits that make up the byte; everything else as itself |
| `DnsName.HostShown` | libs/resolv.c:187-250 | The text of a host name is its labels with dots between them, that of the root one dot |
| `DnsName.ReadQualified` | libs/resolv.c:311-327 | With a dot behind it the text of any name but the root is read as that name, fully qualified |
| `DnsName.ReadNumber` | libs/resolv.c:276-294 | A backslash and three digits are read as the byte of that number, and refused above 255 |
| `DnsName.UniformLegal` | libs/resolv.c:358-364 | k labels of n bytes are a legal name exactly if k (n + 1) is at most 254 |
| `DnsText.NameAtWire` | libs/resolv.c:185-193 | Reading the labels of a wire name in memory gives the name back |
| `DnsText.WireAtName` | libs/resolv.c:185-193 | And the bytes of the name so read are those in memory |
| `DnsText.NameNtop` | libs/resolv.c:178-250 | Writes the text of the name and returns its length, and fails exactly when the name has a pointer or the text does not fit |
| `DnsText.NamePton` | libs/resolv.c:265-367 | Writes the wire form of the name the text denotes, tells whether it was fully qualified, and fails exactly when there is none or no room |
| `DnsText.NtopPton` | libs/resolv.c:178-367 | Showing a name and reading the text again gives the same bytes |
| `DnsText.PutByte` | libs/resolv.c:207-232 | One byte of a label: as it is, with a backslash or as three digits, if there is room |
| `DnsText.PtonDot` | libs/resolv.c:301-335 | What a dot means: the end of a label, of the name, or an error |
| `DnsText.ReadLonger` | libs/resolv.c:313-324 | A text that has run out of room for its wire form has no name that fits |
| `DnsMessage.SameAt` | libs/resolv.c:130-159 | Compares a compressed name in a message with a plain one, through pointers and without case |
| `DnsMessage.LowerSame` | libs/resolv.c:138-141 | Lower case makes two bytes equal exactly if they are the same or one is a letter A to Z and the other 32 above it |
| `DnsMessage.SameNameIs` | libs/resolv.c:130-159 | Names are the same up to case exactly if they have as many labels, of the same lengths, whose bytes differ in the case of letters only |
| `DnsMessage.PointerSpelled` | libs/resolv.c:150-152 | Two bytes 192 + k / 256 and k % 256 stand for the name at k, for every k below 16384 and the labels before |
| `DnsMessage.SectionExample` | libs/resolv.c:468-542 | The example message of RFC 1035 section 4.1.4 spells the four names given there |
| `DnsMessage.SpelledFrame` | libs/resolv.c:422-424 | A name in a message does not depend on bytes behind it |
| `DnsPack.DnFind` | libs/resolv.c:104-167 | Finds an offset where the name is spelled, up to case; if none is found, no name in the table and no suffix it looks at is the name |
| `DnsPack.NamePack` | libs/resolv.c:369-466 | The name written decompresses to the name given, up to case, takes exactly the bytes returned, changes nothing else, and is as short as the table allows; the table is extended or restored and stays well formed |
| `DnsPack.PackLabels` | libs/resolv.c:425-465 | The second half of it: labels until the rest is in the table |
| `DnsPack.CheckLegal` | libs/resolv.c:409-423 | Accepts exactly uncompressed names of at most 255 bytes |
| `DnsPack.NameUnpack` | libs/resolv.c:468-542 | Terminates on every message; succeeds only with a name that following the pointers spells; always succeeds, if there is room, where pointers go strictly backwards: the loop guard rejects no such name |
| `DnsPack.PointerStep` | libs/resolv.c:510-530 | At a pointer the guard has room left if all pointers go backwards |
| `DnsPack.DnComp` | libs/resolv.c:544-559 | Text to compressed name: fails on a bad text, succeeds if there is room, takes the bytes of the shortest form the table allows, and extends or restores the table |
| `DnsPack.DnExpand` | libs/resolv.c:561-583 | Compressed name to text, empty for the root: the text of a name that following the pointers spells, for every message; always found where pointers go strictly backwards |
| `DnsPack.CompExpand` | libs/resolv.c:544-583 | Compressing and expanding gives the same text up to case, and both agree on the number of bytes |
| `DnsPack.SameShown` | libs/resolv.c:138-141 | Names alike up to case have wire forms of one length and texts alike up to case |
| `DoubleWords.Subtracted` | libs/fmod.c:98-101 | The two-word subtraction with its borrow is exact, and its sign is the comparison |
| `DoubleWords.ShiftedLeft` | libs/fmod.c:74-80 | A two-word shift to the left multiplies by a power of two |
| `DoubleWords.ShiftedRight` | libs/fmod.c:133-142 | A two-word shift to the right divides exactly where nothing is lost |
| `DoubleScale.ValOrder` | libs/fmod.c:38-40 | Comparing the words compares the values |
| `DoubleScale.ValStep` | libs/fmod.c:69-93 | From 0 on, each double is one unit above the one before it below 2^-1021, and from there twice as many units for each exponent: so the words have the values of IEEE 754 |
| `DoubleScale.ScaledMod` | libs/fmod.c:95-119 | The remainder of the aligned significands is the remainder of the values, and so is the quotient |
| `Fmod.ILogB` | libs/fmod.c:45-67 | The binary exponent of any positive finite double |
| `Fmod.Align` | libs/fmod.c:69-93 | The significand scaled to a leading bit, subnormals included |
| `Fmod.Reduce` | libs/fmod.c:95-119 | The loop computes quotient and remainder by shift and subtract |
| `Fmod.Encode` | libs/fmod.c:121-145 | Putting exponent and significand back into words loses nothing, in normal and subnormal results |
| `Fmod.Remainder` | libs/fmod.c:45-119 | Exact remainder and quotient of the values |
| `Fmod.Fmod` | libs/fmod.c:23-146 | The remainder of abs(x) by abs(y) with the sign of x, exactly, for all finite x and finite nonzero y; NaN in exactly the exceptional cases, and x itself if y is infinite |
| `Fmod.RemQuo` | libs/remquo.c:26-172 | The words of the remainder to the nearest multiple, ties to even, with the sign it has, that of x for zero; and the quotient modulo 2^31 with the sign of x/y |
| `Fmod.FixUp` | libs/remquo.c:155-171 | The final step rounds the quotient to nearest even, and its subtraction is exact |
| `Fmod.Subtract` | libs/remquo.c:158-166 | The words of that difference |
| `Fmod.Differences` | libs/remquo.c:158-166 | The difference it computes is a double |
| `Fmod.CountWraps` | libs/remquo.c:103-127 | Counting the quotient in 32 bits loses nothing modulo 2^32 |
| `Fmod.ExceptionalMeans` | libs/fmod.c:34-37 | The tests of the words single out y zero, x not finite, and y above infinity as a 64-bit number |
| `Fmod.NearestEvenIs` | libs/remquo.c:155-171 | No multiple of y is nearer to x than the one taken, and one as near only if the one taken is even |
| `AesBytes.SboxInverse` | libs/aes256.c:118-119 | The inverse table undoes the table |
| `AesBytes.SboxDefinition` | libs/aes256.c:156-167 | The table is the affine transformation of the inverse in GF(2^8) |
| `AesBytes.HalveXtime` | libs/aes256.c:22 | Halving undoes doubling, so the round constants run backwards |
| `AesBytes.MulLinear` | libs/aes256.c:187-191 | Multiplication by a constant distributes over addition |
| `AesBytes.UnmixMix` | libs/aes256.c:251-289 | Unmixing a column undoes mixing it |
| `AesBytes.MixByte` | libs/aes256.c:261-265 | The shortcut with the sum of a column computes a mixed byte |
| `AesBytes.UnmixByte` | libs/aes256.c:280-287 | And the one for an unmixed byte |
| `Aes.SubUndone` | libs/aes256.c:194-207 | Each inverse step undoes its step: substitution |
| `Aes.ShiftUndone` | libs/aes256.c:227-248 | Rows |
| `Aes.MixUndone` | libs/aes256.c:251-289 | Columns |
| `Aes.AddUndone` | libs/aes256.c:210-215 | The round key |
| `Aes.KeyBack` | libs/aes256.c:292-335 | One step of the key schedule backwards undoes one forwards, with the same round constant |
| `Aes.RoundsUndone` | libs/aes256.c:358-399 | Any number of rounds is undone by as many inverse rounds |
| `Aes.CipherUndone` | libs/aes256.c:358-399 | Deciphering undoes enciphering, for every block and key |
| `Fips197.KeyWord` | libs/aes256.c:292-312 | The running key of 32 bytes is a window on the 60 words that FIPS 197 section 5.2 defines one by one |
| `Fips197.RoundSame` | libs/aes256.c:363-370 | A round is that of section 5.1: a state of four columns, mixed by the equations of the standard |
| `Fips197.CipherSame` | libs/aes256.c:358-375 | For every block and key the cipher is that of section 5.1 for Nk = 8: mixing in rounds 1 to 13 only |
| `Fips197.InvCipherSame` | libs/aes256.c:378-399 | And its inverse that of section 5.3 |
| `Fips197Example.KnownAnswer` | libs/aes256.c:358-375 | The example of appendix C.3: key 000102...1f turns 00112233...ff into 8ea2b7ca516745bfeafc49904b496089 |
| `AesCode.DoShiftRows` | libs/aes256.c:227-236 | The swaps in place are the rotation of rows |
| `AesCode.DoInvShiftRows` | libs/aes256.c:239-248 | And its inverse |
| `AesCode.DoMixColumns` | libs/aes256.c:251-267 | In place, column by column, the columns are mixed |
| `AesCode.DoInvMixColumns` | libs/aes256.c:270-289 | And unmixed |
| `AesCode.DoExpandEncKey` | libs/aes256.c:292-312 | One step of the schedule in place, and the next round constant |
| `AesCode.DoExpandDecKey` | libs/aes256.c:315-335 | One step back, and the one before |
| `AesCode.Context.Init` | libs/aes256.c:339-346 | The context holds the key and the end of its schedule |
| `AesCode.Context.Done` | libs/aes256.c:349-355 | All key material is zero |
| `AesCode.Context.EncryptEcb` | libs/aes256.c:358-375 | The block becomes its cipher text, by the standard as well as by the running key; the context stays usable |
| `AesCode.Context.DecryptEcb` | libs/aes256.c:378-399 | The block becomes what the inverse cipher of the standard gives |
| `AesCode.Context.RoundTrip` | libs/aes256.c:358-399 | Encrypting and decrypting a block gives it back, with any number of other blocks encrypted or decrypted on the context in between |
| `Qsort.ScanDown` | libs/qsort.c:117-119 | The scan without a bound stops at the hole or one below, never below the window |
| `Qsort.ScanUp` | libs/qsort.c:120-122 | The scan up stops at something greater or at the other index |
| `Qsort.Partition` | libs/qsort.c:108-124 | The pivot ends up with nothing greater below and only greater above it; a permutation of the window |
| `Qsort.Sort` | libs/qsort.c:99-136 | Sorts the window, a permutation of what was there; the recursion is at most log2 of the length deep |
| `Qsort.QSort` | libs/qsort.c:138-157 | Sorts, unless there is no buffer for large elements: then nothing changes |
| `Qsort.HoleMoved` | libs/qsort.c:119-122 | Moving the hole keeps the elements |
| `Qsort.OrderKept` | libs/qsort.c:125-134 | Sorting one side of the pivot does not disturb the order around it |
| `ArgEnv.Emulator.SetArgEnv` | emulators/syscalls.c:433-500 | Between the new and the old stack pointer lies exactly the image, each part where the one before ends, twelve bytes and two for each string besides the strings; nothing else changes |
| `ArgEnv.ReadsBack` | emulators/syscalls.c:433-500 | A program that follows the pointers on the image finds the count, every argument and every environment string; the image takes exactly the bytes computed |
| `ArgEnv.PassesOn` | emulators/syscalls.c:856-863 | A program that passes its own argument list on to execve passes on its arguments after the first, and its environment if it has none |
| `ArgEnv.Emulator.ExecArguments` | emulators/syscalls.c:856-863 | Collects the strings of a list of pointers, but for the first, up to its NULL |
| `ArgEnv.Disjoint` | emulators/syscalls.c:458-474 | No string overlaps another |
| `ArgEnv.ReadsVector` | emulators/syscalls.c:476-490 | A list of pointers up to its NULL gives the strings |
| `ArgEnv.ReadsString` | emulators/syscalls.c:462 | A copied string reads back up to its NUL |
| `ArgEnv.Emulator.PutUI` | emulators/syscalls.c:240-244 | A word is stored high byte first or low byte first, as the CPU has it, and no other byte changes |
| `ArgEnv.Emulator.PutStrings` | emulators/syscalls.c:458-474 | The strings lie one after the other below the top; their addresses are noted |
| `ArgEnv.Emulator.PutPointers` | emulators/syscalls.c:476-490 | A list of pointers with a NULL behind it |
| `Readline.History.Add` | libs/readline.c:52-80 | The history becomes its longest suffix for which there is room, and the line |
| `Readline.NoLongerSuffix` | libs/readline.c:62-75 | Any suffix with the line has at most eight entries and fewer bytes than the buffer exactly when it is no longer than the one kept |
| `Readline.History.DropFirst` | libs/readline.c:64-74 | Forgetting the oldest entry keeps the others in order through the moves |
| `Readline.History.Append` | libs/readline.c:76-79 | The new entry goes last |
| `Readline.History.DropLast` | libs/readline.c:82-86 | Forgets the newest entry |
| `Readline.History.Replace` | libs/readline.c:88-92 | Puts a line in place of the newest |
| `Readline.History.Recall` | libs/readline.c:42-50 | The tables find every entry |
| `Readline.LineBuffer.Insert` | libs/readline.c:148-163 | Inserts a character at the cursor if there is room |
| `Readline.LineBuffer.BSpace` | libs/readline.c:176-183 | Deletes the character before it |
| `Readline.LineBuffer.InsertBSpace` | libs/readline.c:148-183 | Typing and deleting a character changes nothing |
| `Gmtime.YearStep` | include/time.h:31-32 | The closed form for the first day of a year agrees with the leap rule, year by year, negative years included |
| `Gmtime.UniqueDate` | libs/gmtime_r.c:27-46 | No two dates have the same day number |
| `Gmtime.MonthStep` | libs/gmtime_r.c:4-7 | The closed form for the first day of a month agrees with the table of lengths |
| `Gmtime.MonthLengths` | libs/gmtime_r.c:4-7 | The lengths of the months: 30 days for the fourth, sixth, ninth and eleventh, 28 or 29 for the second, otherwise 31 |
| `Gmtime.FourCenturies` | include/time.h:31-32 | 400 years have 146097 days, whatever year they start in |
| `Gmtime.KnownDays` | libs/gmtime_r.c:23-26 | Day 0 is January 1, 1970, a Thursday; five other dates before and after, and which centuries have a February 29 |
| `Gmtime.Tm.ComputeTm` | libs/gmtime_r.c:13-47 | For days from year 0 on, before 1970 too, the date is the one of that day, with day of the year and of the week, exactly if tm_year can hold the year; for all days the loops end and the weekday is right |
| `Gmtime.Tm.FindYear` | libs/gmtime_r.c:27-38 | The loops find year and day of the year, unless the year wraps |
| `Gmtime.Tm.GmtimeR` | libs/gmtime_r.c:49-65 | Date and time add up to the seconds given; the time fields are in range exactly when the time is not negative or a whole number of days |
| `Gmtime.SecondBefore1970` | libs/gmtime_r.c:54-57 | -1 divides into day 0 and second -1 |
| `Gmtime.FirstBadDay` | libs/gmtime_r.c:39 | With 16 bits, January 1, 34668 is the first day whose year is lost |
| `Rand48.Accumulated` | libs/lrand48.c:23-43 | The carries that a 32-bit accumulator drops, and the products never computed, have weight 2^48 or more |
| `Rand48.Iterated` | libs/lrand48.c:23-43 | The limbs rolled out are those of the next state |
| `Rand48.Generator.Iteration48` | libs/lrand48.c:23-43 | The state becomes (a * x + c) modulo 2^48 |
| `Rand48.Generator.SRand48` | libs/lrand48.c:45-51 | Seeds the state and restores the multiplier |
| `Rand48.Generator.LCong48` | libs/lrand48.c:53-56 | Sets state, multiplier and increment |
| `Rand48.Generator.LRand48` | libs/lrand48.c:58-62 | Steps the state and returns 31 of its bits |
| `Rand48.Generator.NRand48` | libs/lrand48.c:64-74 | The number after the caller's state. The generator's own does not move on, and the array is the state after exactly if (a - 1) x + c = 0 modulo 2^48 |
| `Rand48.Generator.JRand48` | libs/lrand48.c:82-92 | The same with 32 bits |
| `Rand48.Generator.Seed48` | libs/lrand48.c:94-100 | Sets the state and returns the one before |
| `Rand48.Run` | libs/lrand48.c:58-92 | Over any run of calls the state is stepped once by each lrand48 and mrand48 and by nothing else, and every answer is that of the state then |
| `Rand48.StepIs` | libs/lrand48.c:23-43 | A step takes the remainder modulo 281474976710656 |
| `Rand48.OutputLimbs` | libs/lrand48.c:58-80 | The numbers in terms of the limbs: the high one below (halved for 31 bits), the middle one above |
| `Rand48.UpperBits` | libs/lrand48.c:58-80 | The numbers returned are the upper bits of the state exactly when the two upper limbs are equal |
| `Rand48.FirstDraw` | libs/lrand48.c:58-62 | After srand48(0) the first number is not made of the upper bits |
| `Rand48.StepsToItself` | libs/lrand48.c:23-43 | A state is its own successor exactly if it solves that equation |
| `Rand48.NoneFixed` | libs/lrand48.c:64-92 | With odd multiplier and increment no state does |
| `Rand48.ZeroAndIdentity` | libs/lrand48.c:5-6 | State 0 does not at the start; every state does after lcong48 with multiplier 1 and increment 0 |
| `Rand48.NRandTwice` | libs/lrand48.c:64-74 | Asking twice for the number after a state gives the same number |

## Findings

What callers expect of these functions, as POSIX describes them, and their code does not keep; each with an input and the exact condition:

| claim | source | input | holds exactly when |
|---|---|---|---|
| `gmtime_r` gives a time of day from 0:00:00 to 23:59:59 | libs/gmtime_r.c:49-58 | -1, where `time_t` has a sign, which it has not with `NO_64BIT` (include/sys/types.h:68-72): it gives second -1 of day 0 (`Gmtime.SecondBefore1970`) | the time is not negative or a multiple of 86400 (`Gmtime.Tm.GmtimeR`) |
| `__compute_tm` gives the date of every day from year 0 on | libs/gmtime_r.c:31-39 | January 1, 34668, if int has 16 bits (`Gmtime.FirstBadDay`) | the year is at most INT_MAX + 1900 (`Gmtime.Tm.ComputeTm`) |
| `lrand48` returns the upper 31 bits of the state, `mrand48` the upper 32 | libs/lrand48.c:58-62 | the first number after `srand48(0)` (`Rand48.FirstDraw`) | the two upper limbs of the new state are equal (`Rand48.UpperBits`) |
| `nrand48` and `jrand48` step the caller's state | libs/lrand48.c:64-92 | the state 0 of a generator as it starts: its successor is 11, and the array keeps 0 (`Rand48.ZeroAndIdentity`) | the state x, multiplier a and increment c have (a - 1) x + c = 0 modulo 2^48 (`Rand48.Generator.NRand48`, `Rand48.Generator.JRand48`). No state has if a and c are odd, as they are unless `lcong48` sets them (`Rand48.NoneFixed`); every state has after `lcong48` with a = 1, c = 0 |

## Left out

Of the modelled files:

- `RegexCompiler.Compiler.Reg` and the other compiler methods: the C functions `reg`, `regbranch`, `regpiece` and `regatom` are each split into a few methods; control flow, order of emission and relinking are those of the source.
- `RegexMatcher.Matcher.RegMatch`: the returns for corrupted pointers and unknown opcodes are left out, as they are proved unreachable for compiled programs; the nodes that need to know whether the rest matched are methods of their own.
- `Regex.RegComp`, `Regex.RegExec`: NULL arguments and the messages of `regerror`; failure is a null or false result. Whether memory can be had is a parameter.
- Patterns and subjects: characters are bytes from 1 to 255. A `char` that is signed changes nothing: the bounds of ranges are read without a sign (libs/regexp.c:131, 477-478), and other characters are only compared for equality.
- `Malloc.Heap.Malloc`: payload contents; errno; the path of `brkmore` for system-wide allocation (`USE_SYSMALLOC`); `realloc`. The root lies below the memory obtained with `brk`, which grows contiguously and in whole units.
- `DnsPack.NameUnpack`: with no room at all, a name from which pointers lead straight to the root is excluded, because the source stores the end of a name without looking; `dn_expand`, its only caller, has the room.
- `DnsText.NameNtop`, `DnsPack.NamePack`: require a source name whose labels are in memory, as the pointers of the source do.
- Everything else in `libs/resolv.c`: sockets, queries, retries, configuration; errno.
- `Fmod.Subtract`: the last subtraction of `remquo` is made in floating point by the source; here its words are those of the exact difference, which is proved to be a double. `Fmod.Fmod`, `Fmod.RemQuo`: payload and signalling of NaN, exception flags.
- `AesBytes.Sbox`, `AesBytes.InvSbox`: the tables are rows of sixteen here; the variant without tables is not modelled. That `aes256_done` really erases is not claimed of an optimising compiler.
- `Qsort.QSort`: the copies for 2-byte and 4-byte elements are one generic method; elements are values, not bytes. The sum of two indices of a window is required to fit in an int, as the source computes it in one.
- `ArgEnv.Emulator.SetArgEnv`: lists of more than 200 strings, for which the source has no room; what happens when the image does not fit below the stack pointer, where the 16-bit addresses of the source wrap.
- `Readline`: terminal output, key handling and the loop that reads keys; a history without a buffer. Lines are required to be shorter than the history buffer, without which the source's loop would drop entries that do not exist.
- `Gmtime.Tm.ComputeTm`: the date of days before year 0, where the year wraps and then has another leap rule, is not stated; the width of `long` is not modelled.
- `Rand48.Generator`: the static buffer that `seed48` returns a pointer to is a value here. That `srand48` and `seed48` keep the increment set by `lcong48` is in their contracts.

Of the rest of the repository:

- The instruction sets of the emulators: tables of opcodes and flags, for which proofs would restate the code.
- Host calls, terminal and user interface of the emulators.
- Transcendental functions: they need error bounds from real analysis.
- stdio, ctype, string, passwd, group and termios functions: plumbing, or buffers whose header is not part of this model.
