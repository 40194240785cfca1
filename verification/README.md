# Verification of the platform adaptation layer

A Dafny model of the self-contained logic in the platform adaptation layer, with proofs of what that
logic keeps and promises. `dafny verify dfyconfig.toml` checks the whole project.

| part | files | what it is about |
|---|---|---|
| Singleton container | `DependencyGraph`, `SingletonContainer` | dependency counts over every run, and a teardown that respects them |
| Bounded printf | `BoundedPrintf` | a counted stream over a caller's buffer, cut and terminated as promised |
| Application events | `EventTypes`, `Escaping`, `EventVerify`, `Decimal`, `EventJson`, `JsonScan`, `EventScan`, `EventRead` | filtering a list in place, and printing it as JSON that reads back, values included |
| Vulkan surface | `VulkanDevice`, `SwapChain`, `SurfaceVulkan` | handles, sizes and caches that stay consistent whatever the driver answers |
| Imported textures | `BufferImport`, `TexturePool` | all-or-nothing import, deferred release in three generations |
| Locked variable | `LockedVariable` | a compare-and-swap loop as a linearizable register |
| Web keys | `WebKeys` | keys that tell resources, kinds and names apart |
| EGL extensions | `EglExtension` | a pointer loop against the split of a string |

How it is modelled:

- Objects whose methods change their fields are classes; each method's contract gives the new state,
  mostly as a function of the old one. Pure code is functions, and the properties are lemmas about them.
- A Vulkan device (`VulkanDevice.Device`) holds the set of live handles. A creation either yields a
  handle that never existed before or changes nothing; which of the two is open at every call, and so
  is every other answer of the driver. Destroying a handle requires that it is live, and destroying a
  surface that no live swapchain uses it, so that a double destruction or one in the wrong order would
  not verify.
- The device also records what each swapchain, image and memory block was created with, which memory an
  image is bound to, and in order what it was asked to signal, to wait for and to show. Contracts say
  sizes, formats and semaphores by that record.
- Each owner of handles keeps books: the live handles are those it holds, those it has lost, and those
  of others, and no handle is two of these.
- A format string with its arguments is the list of writes it leads to, possibly ending in an error.

## What the proofs show about the code

Some of what one would expect holds only under a condition; the exact conditions are lemmas here.

- `DependOn` on names nobody added hands out id 0. Counts go wrong in exactly those runs that open with
  a `DependOn` and in which some later operation adds a name not mentioned before: entry 0, which then
  depends on itself, counts one dependent too few, and no other entry does
  (`Singletons.CountsAlongRuns`, `Singletons.SkewExact`). That self-dependency then does not bind: after
  every run the teardown can end if and only if the dependencies that bind have no cycle
  (`Singletons.TeardownAfterAnyRun`). Where they have none, what is on a cycle of all dependencies can be
  erased all the same (`Singletons.CycleErased`); where they have one, what it reaches is never erased,
  and the destructor's outer loop never ends.
- A malformed format leaves the empty string - unless the destination is larger than `count` and its
  output had overrun the stream already, in which case the cut text stays in the buffer
  (`BoundedPrintf.CallerSees`).
- Printed parameters are JSON exactly when no value holds an infinity, a not-a-number, or a control
  character without a short escape of its own (`JsonScan.ParamTextScans`); only seven characters are
  escaped. Events with such values pass verification (`EventScan.MalformedExamples`). A whole event is
  JSON exactly when, besides, its time zone can stand inside a string literal, since the base strings are
  not escaped (`EventScan.VerifiedEventScans`); and spliced text exactly when each added name and value
  is one by itself (`EventScan.SplicedScans`).
- Adding custom parameters to an event shows in its text exactly when the event has no parameters of its
  own, which take precedence, and no stored text of one or two characters
  (`EventJson.CustomParamsShownIff`).
- A failing `CreateSyncObjects` loses one semaphore exactly when an odd number of creations had
  succeeded (`SwapChain.CreateSemaphores`).
- An acquire semaphore is signalled a second time without a wait exactly when two acquisitions follow
  each other with neither a frame shown nor a swapchain created in between, as two `RequestFrame` calls
  do (`SurfaceVulkan.SignalledTwiceIff`).
- A texture is lost exactly when a retirement meets its key among the retired ones
  (`TexturePool.LostInRun`); two refused draws of one buffer before the end of a draw always do it
  (`TexturePool.SecondRefusalLost`, `TexturePool.LossHappens`).
- `SetColorSpace` drops the cache even where, without a render context, the colour space is not taken
  over (`SurfaceVulkan.RSSurfaceAndroidVulkan.SetColorSpace`).
- Keys of two resource types can coincide exactly when one type starts like a key of the other
  (`WebKeys.TypesShareKeys`); types without an `@` never do.

## Model

| member | source | states |
|---|---|---|
| Singletons.SingletonContainer.AddSingleton | window_manager/utils/src/singleton_container.cpp:53-64 | a new name gets the next id and an entry with count 0; a known one changes nothing |
| Singletons.SingletonContainer.SetSingleton | window_manager/utils/src/singleton_container.cpp:66-74 | the whole new state: a known name's entry gets the instance and keeps its count |
| Singletons.SingletonContainer.GetSingleton | window_manager/utils/src/singleton_container.cpp:76-83 | the instance of the entry the name leads to, null for an unknown name |
| Singletons.SingletonContainer.DependOn | window_manager/utils/src/singleton_container.cpp:85-94 | the whole new state, unknown names included, and the instance of the target; what it means is in `Singletons.DependOnLinks` |
| Singletons.DependOnLinks | window_manager/utils/src/singleton_container.cpp:85-94 | the dependencies afterwards are the old ones and the one from the first name's entry to the second's; only the second's count may change, by one where the dependency is new; no known name leads elsewhere and no instance changes |
| Singletons.SetThenGet | window_manager/utils/src/singleton_container.cpp:66-83 | a set is seen by every name that leads to the same entry, and by no other |
| Singletons.AddThenGet | window_manager/utils/src/singleton_container.cpp:53-83 | an addition is seen under a new name and under no other; adding a known name changes nothing |
| Singletons.StepKeepsCounts | window_manager/utils/src/singleton_container.cpp:53-94 | every step keeps each count equal to the number of dependents; only a `DependOn` before anything was added breaks the id counter |
| Singletons.FirstDependOn | window_manager/utils/src/singleton_container.cpp:85-94 | depending before anything is registered creates an entry 0 that depends on itself |
| Singletons.SpoilingKept | window_manager/utils/src/singleton_container.cpp:53-94 | every step keeps a container that was used too early as it is: right counts until id 0 is handed out, skewed from then on |
| Singletons.SkewExact | window_manager/utils/src/singleton_container.cpp:53-94 | in a skewed container entry 0 counts exactly one dependent too few, and no other entry does |
| Singletons.RunNames | window_manager/utils/src/singleton_container.cpp:53-94 | the names known after a run are those it mentioned, and ids were handed out exactly if an operation added a new name |
| Singletons.RunIds | window_manager/utils/src/singleton_container.cpp:53-94 | over every run, a name leads to 0 if a `DependOn` mentioned it first, else to the number of additions of new names before its own |
| Singletons.RunEdges | window_manager/utils/src/singleton_container.cpp:85-94 | over every run, one entry depends on another if and only if some `DependOn(x, y)` of the run has x leading to the one and y to the other |
| Singletons.CountsAlongRuns | window_manager/utils/src/singleton_container.cpp:53-94 | over every run: counts are right if and only if the run does not both open with `DependOn` and add a name not mentioned before; then they are skewed |
| Singletons.RunsAccounted | window_manager/utils/src/singleton_container.cpp:53-94 | after every run the counts are right or skewed, and which dependencies bind is decided by the operations |
| Singletons.EraseCounts | window_manager/utils/src/singleton_container.cpp:32-47 | with right counts, an erasure keeps them right, re-creates no erased entry, and erases only what nothing depends on |
| Singletons.EraseBound | window_manager/utils/src/singleton_container.cpp:32-47 | with right or skewed counts, erasing does the same as with only the dependencies that bind |
| Singletons.ErasedState | window_manager/utils/src/singleton_container.cpp:27-50 | what is left of right counts, entries and dependencies after any legal sequence of erasures |
| Singletons.LegalBound | window_manager/utils/src/singleton_container.cpp:27-50 | a container with right or skewed counts can be torn down in exactly the orders of the one with only the binding dependencies |
| Singletons.TeardownOrder | window_manager/utils/src/singleton_container.cpp:27-50 | each entry is erased at most once, and only after everything bound to it, whatever the ids; right or skewed counts, that is, after every run |
| Singletons.StuckNeverErased | window_manager/utils/src/singleton_container.cpp:29-33 | nothing on, or reachable from, a cycle of binding dependencies is ever erased, after every run |
| Singletons.StandstillIsStuck | window_manager/utils/src/singleton_container.cpp:27-50 | when nothing can be erased, what is left is exactly what a cycle of binding dependencies reaches, after every run |
| Singletons.TeardownCompletesIffAcyclic | window_manager/utils/src/singleton_container.cpp:24-51 | the container can be emptied if and only if the binding dependencies have no cycle |
| Singletons.TeardownAfterAnyRun | window_manager/utils/src/singleton_container.cpp:24-94 | the same for every run of operations, with the binding dependencies read off the operations |
| Singletons.DependentsGoFirst | window_manager/utils/src/singleton_container.cpp:24-94 | the teardown after any run, in names: for every `DependOn(x, y)` of the run that binds, x's entry is erased before y's |
| Singletons.CycleErased | window_manager/utils/src/singleton_container.cpp:24-94 | a run with a wrong count, after which an entry on a cycle is erased |
| Singletons.SomethingErasable | window_manager/utils/src/singleton_container.cpp:27-33 | without a binding cycle, every state on the way to empty has an entry to erase |
| Singletons.SingletonContainer.ReleaseDependencies | window_manager/utils/src/singleton_container.cpp:35-40 | counts of exactly the dependencies go down by one, and the dependency set goes |
| Singletons.SingletonContainer.Visit | window_manager/utils/src/singleton_container.cpp:29-48 | the iterator steps to the next larger id, and its entry goes exactly when its count is zero |
| Singletons.SingletonContainer.ErasePass | window_manager/utils/src/singleton_container.cpp:28-49 | a pass ends, erases legally, and erases something whenever something could be |
| Singletons.SingletonContainer.Destroy | window_manager/utils/src/singleton_container.cpp:24-51 | without a binding cycle both loops end; every entry, and nothing else, is erased, in a legal order |
| DependencyGraph.BackwardClosedIsStuck | window_manager/utils/src/singleton_container.cpp:27-50 | a finite set in which every node has a predecessor lies behind a cycle: the graph argument for the teardown |
| DependencyGraph.StuckHasStuckPredecessor | window_manager/utils/src/singleton_container.cpp:29-33 | what a cycle reaches always has a dependent that a cycle reaches |
| DependencyGraph.NoStuckIffAcyclic | window_manager/utils/src/singleton_container.cpp:27-50 | no node is reached from a cycle if and only if there is none |
| BoundedPrintf.PrintfStream.Putc | hiviewdfx/hilog/vsnprintf/vsnprintf_s_p.c:115-115 | one character into the next place, or EOF exactly when no place is left; the count always goes down |
| BoundedPrintf.WriteString | hiviewdfx/hilog/vsnprintf/vsnprintf_s_p.c:164-177 | as much of the text as fits lands in the buffer behind what was there, and the total is its length, or -1 from the first loss on |
| BoundedPrintf.WriteMultiChar | hiviewdfx/hilog/vsnprintf/vsnprintf_s_p.c:179-190 | the same for a repeated character |
| BoundedPrintf.OutputSplits | hiviewdfx/hilog/vsnprintf/vsnprintf_s_p.c:164-190 | the text of a list of writes is that of its parts, in order |
| BoundedPrintf.OutputOfOne | hiviewdfx/hilog/vsnprintf/vsnprintf_s_p.c:164-190 | one write stands for its text, or for so many copies of its character |
| BoundedPrintf.Interpret | hiviewdfx/hilog/vsnprintf/vsnprintf_s_p.c:287-294 | for any list of writes: the buffer holds the longest prefix that fits, the total is exact or -1 |
| BoundedPrintf.VsnprintfImpl | hiviewdfx/hilog/vsnprintf/vsnprintf_s_p.c:287-305 | whole text and NUL, or cut text and NUL with the truncation code, or an error; nothing else is written |
| BoundedPrintf.Vsnprintfp | hiviewdfx/hilog/vsnprintf/vsnprintf_s_p.c:223-264 | return value and every byte of the destination, for accepted and refused arguments alike |
| BoundedPrintf.AcceptedMeans | hiviewdfx/hilog/vsnprintf/vsnprintf_s_p.c:227-234 | refused are a missing format or destination, a destination without room or above 2^31 - 1, and a count of 2^31 - 1 or more that is not the largest size |
| BoundedPrintf.CallerSees | hiviewdfx/hilog/vsnprintf/vsnprintf_s_p.c:194-264 | the return value is the length exactly when the text is at most `count` long and leaves room for the terminator, else -1; the C string read back is the text, its first `count` characters, or empty; always terminated, nothing past the destination's size touched |
| BoundedPrintf.CStringStopsAtNul | hiviewdfx/hilog/vsnprintf/vsnprintf_s_p.c:287-305 | a C string reader stops at the terminator or at an earlier NUL of the text, whatever stands behind it |
| Escaping.EscapeStringValue | hiviewdfx/hiappevent/native/src/hiappevent_verify.cpp:85-117 | the one-pass escaper computes the character-wise escape |
| Escaping.EscapeRoundTrip | hiviewdfx/hiappevent/native/src/hiappevent_verify.cpp:85-117 | reading the escapes back (section 7 of RFC 8259) gives the string that was escaped, for every string |
| Escaping.EscapeDistributes | hiviewdfx/hiappevent/native/src/hiappevent_verify.cpp:85-117 | escaping distributes over concatenation |
| Escaping.EscapeLength | hiviewdfx/hiappevent/native/src/hiappevent_verify.cpp:85-117 | length at most doubles, and stays the same only for strings left as they are |
| JsonScan.ScanEscaped | hiviewdfx/hiappevent/native/src/hiappevent_base.cpp:150-153 | a scan from the opening quotation mark stops exactly at the closing one, or fails if a bare control character is in between |
| EventVerify.IsValidName | hiviewdfx/hiappevent/native/src/hiappevent_verify.cpp:58-78 | accepted are exactly the names of the grammar within the length |
| EventVerify.AsciiCodes | hiviewdfx/hiappevent/native/src/hiappevent_verify.cpp:58-78 | the letters, digits and the underscore of names, by code |
| EventVerify.IsValidEventName | hiviewdfx/hiappevent/native/src/hiappevent_verify.cpp:272-278 | the same with a leading "hiappevent." set aside, and 48 characters in all |
| EventVerify.EventNames | hiviewdfx/hiappevent/native/src/hiappevent_verify.cpp:272-278 | behind the prefix 37 characters are left for a grammatical name, without it 48 |
| EventVerify.CheckStrParamLength | hiviewdfx/hiappevent/native/src/hiappevent_verify.cpp:119-131 | fits or not, escaped if it fits and unchanged if not |
| EventVerify.FittingLengths | hiviewdfx/hiappevent/native/src/hiappevent_verify.cpp:119-174 | 8192 characters for a string and for each of a list, 1048576 for one named "crash" or "anr" |
| EventVerify.CheckListValueSize | hiviewdfx/hiappevent/native/src/hiappevent_verify.cpp:133-156 | reported is a list of over 100; what is left is a prefix of it, of length 100 or its own if that is less, and of its type |
| EventVerify.CheckStringLengthOfList | hiviewdfx/hiappevent/native/src/hiappevent_verify.cpp:158-174 | all elements fit or not; if so, each is escaped |
| EventVerify.StoredMeans | hiviewdfx/hiappevent/native/src/hiappevent_verify.cpp:119-174 | what is stored: a string that unescapes to the original, the first hundred elements of a list, of strings likewise, and anything else as it is |
| EventVerify.VerifyAppEventParam | hiviewdfx/hiappevent/native/src/hiappevent_verify.cpp:193-231 | keep or drop, the stored form of a kept parameter, and the code of the last issue |
| EventVerify.IssueNumbers | hiviewdfx/hiappevent/native/src/hiappevent_verify.cpp:193-231 | which code each kind of issue has, and in which order issues are looked for |
| EventVerify.FilterParams | hiviewdfx/hiappevent/native/src/hiappevent_verify.cpp:305-317 | the in-place erase loop leaves exactly the survivors, in order, and the last issue |
| EventVerify.LastIssueMeans | hiviewdfx/hiappevent/native/src/hiappevent_verify.cpp:305-317 | the filter's code is that of the last parameter with an issue, or 0 when none has one |
| EventVerify.VerifyAppEvent | hiviewdfx/hiappevent/native/src/hiappevent_verify.cpp:290-323 | refusals have codes -99, -4 and -1 and leave the event alone; otherwise the list becomes a prefix of the survivors, 32 long or all of them, and the code is 5 exactly if some had to go, else that of the last issue |
| EventVerify.RepeatsMeansRepeatsKept | hiviewdfx/hiappevent/native/src/hiappevent_verify.cpp:193-199 | repeating an earlier good parameter is the same as repeating an earlier kept one |
| EventVerify.Origin | hiviewdfx/hiappevent/native/src/hiappevent_verify.cpp:305-317 | every survivor is the stored form of a kept parameter |
| EventVerify.SurvivorsInOrder | hiviewdfx/hiappevent/native/src/hiappevent_verify.cpp:305-317 | the survivors come from strictly increasing places, exactly those of the kept parameters, each with its name and stored value |
| EventVerify.SurvivorsDistinct | hiviewdfx/hiappevent/native/src/hiappevent_verify.cpp:193-206 | survivors have distinct, grammatical names |
| EventVerify.NoIssueMeansSpotless | hiviewdfx/hiappevent/native/src/hiappevent_verify.cpp:193-231 | no issue if and only if every parameter is acceptable, short enough and first of its name |
| EventVerify.SuccessMeansUntouched | hiviewdfx/hiappevent/native/src/hiappevent_verify.cpp:176-191 | the verdict is success if and only if nothing was dropped or cut |
| EventTypes.AppEventPack.AddParam | hiviewdfx/hiappevent/native/src/hiappevent_base.cpp:381-406 | the parameter goes to the end of the list |
| EventTypes.TypeNumbers | hiviewdfx/hiappevent/native/include/hiappevent_base.h:63-81 | scalars are numbered from 0 to 8, and a list has the number of its elements and 8 more |
| EventVerify.StoredKeepsType | hiviewdfx/hiappevent/native/src/hiappevent_verify.cpp:193-231 | verification never changes the type of a value |
| Decimal.NatRoundTrip | hiviewdfx/hiappevent/native/src/hiappevent_base.cpp:124-128 | decimal text reads back as the number, without leading zeros |
| Decimal.IntTextInjective | arkui/core/components_ng/pattern/web/web_resource.cpp:93-98 | different integers have different texts |
| Decimal.TrimFraction | hiviewdfx/hiappevent/native/src/hiappevent_base.cpp:42-50 | trimming takes the trailing zeros of the fraction, and the point if nothing is left |
| Decimal.TrimKeepsValue | hiviewdfx/hiappevent/native/src/hiappevent_base.cpp:42-50 | a trimmed float keeps sign, whole part and value, and cannot be shorter |
| EventJson.GetValuesStr | hiviewdfx/hiappevent/native/src/hiappevent_base.cpp:155-175 | the elements in brackets, separated by single commas |
| EventJson.GetParamValueStr | hiviewdfx/hiappevent/native/src/hiappevent_base.cpp:177-290 | the text of a value by its type; that it stands for the value is `EventRead.ReadsBack` |
| EventJson.StringStream.Write | hiviewdfx/hiappevent/native/src/hiappevent_base.cpp:604-628 | a write behind a seek-back covers the comma and nothing else |
| EventJson.AddParamsToJsonString | hiviewdfx/hiappevent/native/src/hiappevent_base.cpp:619-628 | members with commas between them, the next write going over the last comma |
| EventJson.GetParamStr | hiviewdfx/hiappevent/native/src/hiappevent_base.cpp:566-577 | the stored text, or the parameters as an object without a trailing comma |
| EventJson.AddParamsInfoToJsonString | hiviewdfx/hiappevent/native/src/hiappevent_base.cpp:604-617 | own parameters first, else the inside of the stored text |
| EventJson.GetEventStr | hiviewdfx/hiappevent/native/src/hiappevent_base.cpp:556-602 | the fixed members, then the parameters, in one object |
| EventJson.GetCustomParams | hiviewdfx/hiappevent/native/src/hiappevent_base.cpp:630-640 | names, value texts and types in order, behind what was there, each type by its number |
| EventJson.AddCustomParams | hiviewdfx/hiappevent/native/src/hiappevent_base.cpp:535-554 | the pairs spliced in front of the closing brace, or nothing for an empty map or too short a text |
| EventJson.SpliceAppends | hiviewdfx/hiappevent/native/src/hiappevent_base.cpp:535-554 | splicing into a printed object, the empty one included, appends members |
| EventJson.CallsAccumulate | hiviewdfx/hiappevent/native/src/hiappevent_base.cpp:535-554 | any sequence of calls keeps the text a printed object with the old members followed by all added pairs |
| EventJson.StoredPrintsSame | hiviewdfx/hiappevent/native/src/hiappevent_base.cpp:556-628 | an event rebuilt from its stored parameter text prints as the original, for every parameter list |
| EventJson.CustomParamsShownIff | hiviewdfx/hiappevent/native/src/hiappevent_base.cpp:535-617 | for every event and stored text: adding custom parameters changes what is printed if and only if there are no parameters of its own and no stored text of one or two characters |
| EventJson.ShownMembers | hiviewdfx/hiappevent/native/src/hiappevent_base.cpp:535-617 | what then shows is the stored members followed by the added ones |
| EventJson.FirstCustomParamsShownIff | hiviewdfx/hiappevent/native/src/hiappevent_base.cpp:535-617 | with nothing stored, all members show together if and only if the event has none of its own |
| JsonScan.ValueScans | hiviewdfx/hiappevent/native/src/hiappevent_base.cpp:124-290 | an independent scanner stops exactly behind a printed value, or refuses it, by whether the value is safe |
| JsonScan.MembersScan | hiviewdfx/hiappevent/native/src/hiappevent_base.cpp:619-640 | scanning printed members gives back names and value texts, in order |
| JsonScan.ParamTextScans | hiviewdfx/hiappevent/native/src/hiappevent_base.cpp:566-577 | the parameter text of a verified event is a JSON object with exactly its members (RFC 8259, sections 4 and 5), if and only if all values are safe |
| JsonScan.VerificationVerifies | hiviewdfx/hiappevent/native/src/hiappevent_verify.cpp:290-323 | what verification leaves is what the scanner theorem asks for, with distinct names |
| EventScan.ValueLocal | hiviewdfx/hiappevent/native/src/hiappevent_base.cpp:283-290 | whether and how far a value scans depends on nothing behind it |
| EventScan.InsideScans | hiviewdfx/hiappevent/native/src/hiappevent_base.cpp:150-153 | a scan stops exactly at the closing quotation mark for text that can stand inside a string literal, and for no other |
| EventScan.PairsScan | hiviewdfx/hiappevent/native/src/hiappevent_base.cpp:535-554 | printed pairs are read back, all and nothing else, if and only if each name and each value is one by itself |
| EventScan.SplicedScans | hiviewdfx/hiappevent/native/src/hiappevent_base.cpp:535-554 | after any calls the spliced text is read back as the old members followed by the added pairs, if and only if each of them is good by itself |
| EventScan.EventTextScans | hiviewdfx/hiappevent/native/src/hiappevent_base.cpp:556-628 | a whole event is read back as its seven fixed members and its parameters, if and only if the values are safe and the base strings can stand inside a string literal |
| EventScan.VerifiedEventScans | hiviewdfx/hiappevent/native/src/hiappevent_base.cpp:556-628 | after verification only the values and the time zone decide |
| EventScan.PassesAndIsMalformed | hiviewdfx/hiappevent/native/src/hiappevent_verify.cpp:290-323 | any acceptable parameter with an unsafe value passes verification and prints as no object |
| EventScan.MalformedExamples | hiviewdfx/hiappevent/native/src/hiappevent_verify.cpp:290-323 | a not-a-number, and a string with an unescaped control character, do so |
| EventRead.IntReads | hiviewdfx/hiappevent/native/src/hiappevent_base.cpp:124-148 | the text of a whole number reads back as it |
| EventRead.FloatReads | hiviewdfx/hiappevent/native/src/hiappevent_base.cpp:42-50 | the trimmed text of a finite float reads back with its sign, whole part and six decimals |
| EventRead.ReadsBack | hiviewdfx/hiappevent/native/src/hiappevent_base.cpp:124-290 | every value that is safe to print reads back from its stored and printed text, by the number of its type, as itself, and a list as its first hundred elements in order |
| EventRead.ParamTextReads | hiviewdfx/hiappevent/native/src/hiappevent_base.cpp:566-628 | the parameter text of a verified event is an object with the kept parameters as its members, in order, and every value reads back |
| EventRead.BaseReads | hiviewdfx/hiappevent/native/src/hiappevent_base.cpp:579-602 | the seven fixed members by name, and the numbers among them read back |
| SwapChain.ClampedSide | graphic_2d/android/vulkan/rs_surface_swap_chain.cpp:77-92 | each side by itself: the requested one if within the limits, the largest if above, the smallest if below |
| SwapChain.ClampedExtent | graphic_2d/android/vulkan/rs_surface_swap_chain.cpp:77-92 | within the surface limits, the missed limit where one is missed, the requested size exactly where they admit it, and no admissible side is nearer to the requested one |
| SwapChain.ChooseSwapSurfaceFormat | graphic_2d/android/vulkan/rs_surface_swap_chain.cpp:47-58 | 8-bit BGRA in sRGB if it is on offer, else the first format |
| SwapChain.CreatePairs | graphic_2d/android/vulkan/rs_surface_swap_chain.cpp:346-349 | complete pairs up to the first failure, in the order of creation, and at most one odd semaphore |
| SwapChain.CreateSemaphores | graphic_2d/android/vulkan/rs_surface_swap_chain.cpp:332-363 | three pairs or none; lost is one semaphore exactly when a creation fails after an odd number of successes |
| SwapChain.RSSurfaceSwapChain.CreateSyncObjects | graphic_2d/android/vulkan/rs_surface_swap_chain.cpp:332-363 | the books stay balanced with at most one lost semaphore per failed call |
| SwapChain.RSSurfaceSwapChain.CleanupSyncObjects | graphic_2d/android/vulkan/rs_surface_swap_chain.cpp:365-384 | all semaphores are destroyed, each once, and the books stay balanced |
| SwapChain.RSSurfaceSwapChain.RetrieveSwapchainImages | graphic_2d/android/vulkan/rs_surface_swap_chain.cpp:144-163 | all images of the swapchain, or the swapchain is destroyed |
| SwapChain.RSSurfaceSwapChain.CreateSwapchain | graphic_2d/android/vulkan/rs_surface_swap_chain.cpp:94-142 | a swapchain with the best format, the clamped extent and at least three images, or none |
| SwapChain.RSSurfaceSwapChain.Create | graphic_2d/android/vulkan/rs_surface_swap_chain.cpp:165-212 | swapchain and semaphores together or neither, for the requested size; the surface may stay |
| SwapChain.RSSurfaceSwapChain.Recreate | graphic_2d/android/vulkan/rs_surface_swap_chain.cpp:214-264 | surface, swapchain and semaphores, all new, or none of them; no flag is left set |
| SwapChain.RSSurfaceSwapChain.Cleanup | graphic_2d/android/vulkan/rs_surface_swap_chain.cpp:266-287 | nothing is held afterwards; what is live is lost or somebody else's; a second call changes nothing |
| SwapChain.RSSurfaceSwapChain.AcquireNextImage | graphic_2d/android/vulkan/rs_surface_swap_chain.cpp:290-301 | fails without a swapchain, otherwise an index of an image there is |
| SwapChain.RSSurfaceSwapChain.GetImageAvailableSemaphore | graphic_2d/android/vulkan/rs_surface_swap_chain.cpp:386-392 | a live semaphore exactly when there is a swapchain and the slot is below 3 |
| SwapChain.RSSurfaceSwapChain.GetRenderFinishedSemaphore | graphic_2d/android/vulkan/rs_surface_swap_chain.cpp:394-400 | the same for the other list |
| SurfaceVulkan.PhysicalSizeExact | graphic_2d/android/vulkan/rs_surface_android_vulkan.cpp:315-338 | the physical size of a frame is the requested one if and only if the surface admits it |
| SurfaceVulkan.ColorSpaces | graphic_2d/android/vulkan/rs_surface_android_vulkan.cpp:91-116 | both P3 gamuts share a colour space, Adobe RGB and BT.2020 have one each, and all else is sRGB |
| SurfaceVulkan.SignalledTwiceIff | graphic_2d/android/vulkan/rs_surface_android_vulkan.cpp:248-262 | over every run of turns, an acquire semaphore is signalled again without a wait if and only if the turn before was an acquisition too |
| SurfaceVulkan.RSSurfaceAndroidVulkan.SetNativeWindowInfo | graphic_2d/android/vulkan/rs_surface_android_vulkan.cpp:524-547 | the recorded size, the mark and the pending size afterwards; the swapchain fits the size or is to be recreated for it |
| SurfaceVulkan.RSSurfaceAndroidVulkan.RecreateSwapchainIfNeeded | graphic_2d/android/vulkan/rs_surface_android_vulkan.cpp:203-246 | afterwards no size is pending and a swapchain there is was created for the current size; the cache never outlives its swapchain |
| SurfaceVulkan.RSSurfaceAndroidVulkan.AcquireSwapchainImage | graphic_2d/android/vulkan/rs_surface_android_vulkan.cpp:248-262 | the device is asked to signal the acquire semaphore of the slot; an image exactly on success, and a mark to recreate exactly when out of date or suboptimal |
| SurfaceVulkan.RSSurfaceAndroidVulkan.GetOrCreateSkiaSurface | graphic_2d/android/vulkan/rs_surface_android_vulkan.cpp:264-285 | a cached surface is handed out as it is, and cached or new it is the one that wrapping the image afresh gives, but for the protected flag |
| SurfaceVulkan.RSSurfaceAndroidVulkan.RequestFrame | graphic_2d/android/vulkan/rs_surface_android_vulkan.cpp:287-340 | the swapchain of a frame is one the device built with the requested sides, or the limit that a side missed; the frame is around an image of it, of that size, format and the current colours, with its age; and the acquire semaphore of the slot is signalled once |
| SurfaceVulkan.RSSurfaceAndroidVulkan.FlushSkiaSurface | graphic_2d/android/vulkan/rs_surface_android_vulkan.cpp:342-377 | an accepted drawing signals the given semaphore once done with the image of the frame; a refused one asks for nothing |
| SurfaceVulkan.RSSurfaceAndroidVulkan.WaitAndSubmitSkiaContext | graphic_2d/android/vulkan/rs_surface_android_vulkan.cpp:379-403 | the device is asked to wait for the given semaphore |
| SurfaceVulkan.RSSurfaceAndroidVulkan.PresentSwapchainImage | graphic_2d/android/vulkan/rs_surface_android_vulkan.cpp:405-433 | the image is shown once behind the given semaphore; and what each answer of the driver leads to: slot, last presented image, mark to recreate, result |
| SurfaceVulkan.RSSurfaceAndroidVulkan.FlushFrame | graphic_2d/android/vulkan/rs_surface_android_vulkan.cpp:435-496 | a frame that is not ready leaves no trace; any other is rendered, waited for and shown behind the render semaphore of the slot, or, where drawing fails, shown behind its acquire semaphore |
| SurfaceVulkan.RSSurfaceAndroidVulkan.SetColorSpace | graphic_2d/android/vulkan/rs_surface_android_vulkan.cpp:498-513 | the cache is dropped unless the colours are the same; they are taken over only with a render context |
| SurfaceVulkan.RSSurfaceAndroidVulkan.Destroy | graphic_2d/android/vulkan/rs_surface_android_vulkan.cpp:58-76 | everything but lost semaphores is given back; the second cleanup does no harm |
| BufferImport.GuardExact | graphic_2d/android/native_buffer_utils.cpp:100-103 | the nested-division test on 32 bits accepts exactly the sizes without a zero and with a volume of at most 10^8 |
| BufferImport.AdmitsPower | graphic_2d/android/native_buffer_utils.cpp:124-130 | the buffer admits memory type i exactly if its mask has the bit worth 2 to the power of i |
| BufferImport.LocalBit | graphic_2d/android/native_buffer_utils.cpp:124-130 | a memory type is local to the device exactly if the lowest of its flags is set |
| BufferImport.FindMemoryType | graphic_2d/android/native_buffer_utils.cpp:124-136 | the first fitting memory type, or none exactly when none fits |
| BufferImport.CreateVkImage | graphic_2d/android/native_buffer_utils.cpp:65-111 | one new image of exactly the given size, format and usage, with a volume between 1 and 10^8, or nothing |
| BufferImport.AllocateDeviceMemory | graphic_2d/android/native_buffer_utils.cpp:113-160 | one new memory block for the image, from the buffer, of its size and of the first fitting type, or the image is gone |
| BufferImport.BindImageMemory | graphic_2d/android/native_buffer_utils.cpp:162-180 | bound, or both are gone |
| BufferImport.MakeVKTextureInfoFromHardwareBuffer | graphic_2d/android/native_buffer_utils.cpp:206-247 | under any failures no change, or one new image and one new memory and nothing else: the image of the given width and height, one deep, of the buffer's format, bound to the memory, which is imported from the buffer |
| TexturePool.EmplaceAll | graphic_2d/android/vulkan/rs_surface_texture_android_vulkan.cpp:75-79 | emplacing one by one, in any order, is a union in which the old entries win |
| TexturePool.NothingLost | graphic_2d/android/vulkan/rs_surface_texture_android_vulkan.cpp:75-79 | a retirement loses something if and only if a key is taken among the retired ones |
| TexturePool.LostInRun | graphic_2d/android/vulkan/rs_surface_texture_android_vulkan.cpp:56-155 | over every run of draws and ends of draws, nothing is lost if and only if no retirement met a taken key |
| TexturePool.SecondRefusalLost | graphic_2d/android/vulkan/rs_surface_texture_android_vulkan.cpp:119-126 | two refused draws of one buffer with no end of a draw in between lose the second texture, in any pool |
| TexturePool.LossHappens | graphic_2d/android/vulkan/rs_surface_texture_android_vulkan.cpp:93-128 | such a run from the empty pool |
| TexturePool.RetireBooks | graphic_2d/android/vulkan/rs_surface_texture_android_vulkan.cpp:75-79 | retiring any part of the current textures keeps the three maps disjoint and accounted for, and dates the retired ones |
| TexturePool.ShiftBooks | graphic_2d/android/vulkan/rs_surface_texture_android_vulkan.cpp:148-155 | a finished draw ends the textures retired before the previous draw finished, and no others |
| TexturePool.EnterTexture | graphic_2d/android/vulkan/rs_surface_texture_android_vulkan.cpp:102-110 | an imported texture enters the books as nobody else's |
| TexturePool.DrawnCurrent | graphic_2d/android/vulkan/rs_surface_texture_android_vulkan.cpp:56-128 | after a draw the texture drawn is the current one of the newest frame's buffer, or, refused, there is none; an update takes away all others, and nothing else does |
| TexturePool.DrawnRetired | graphic_2d/android/vulkan/rs_surface_texture_android_vulkan.cpp:56-128 | a draw retires the texture refused, under its buffer's key, and on an update all others; no retired entry is replaced or taken away |
| TexturePool.AndroidSurfaceTextureVK.GetHardwareBuffer | graphic_2d/android/vulkan/rs_surface_texture_android_vulkan.cpp:56-91 | the newest frame, the one before it retained, and all textures retired on an update |
| TexturePool.AndroidSurfaceTextureVK.DrawBuffer | graphic_2d/android/vulkan/rs_surface_texture_android_vulkan.cpp:102-126 | imported if missing, with the size of the texture and from that buffer; drawn, or retired when refused |
| TexturePool.AndroidSurfaceTextureVK.OnCreateTextureImage | graphic_2d/android/vulkan/rs_surface_texture_android_vulkan.cpp:93-128 | the whole outcome: nothing drawn, drawn, or refused and retired; a texture newly imported has the newest frame's width and height and its buffer; no handle is destroyed |
| TexturePool.AndroidSurfaceTextureVK.OnPostDraw | graphic_2d/android/vulkan/rs_surface_texture_android_vulkan.cpp:148-155 | destroyed are exactly the textures for which this is the second finished draw since their retirement |
| TexturePool.DestroyTextures | graphic_2d/android/vulkan/rs_surface_texture_android_vulkan.cpp:157-169 | image and memory of each texture are destroyed once |
| TexturePool.AndroidSurfaceTextureVK.Destroy | graphic_2d/android/vulkan/rs_surface_texture_android_vulkan.cpp:31-43 | the destructor leaves only lost handles and those of others |
| LockedVariable.CompareExchangeKeeps | window_manager/utils/include/class_var_definition.h:46-49 | a compare-and-swap, failing spuriously or not, keeps the invariant |
| LockedVariable.CopyWordKeeps | window_manager/utils/include/class_var_definition.h:50-50 | copying one word keeps the variable a mixture of exactly the copied words and the old rest |
| LockedVariable.ReleaseKeeps | window_manager/utils/include/class_var_definition.h:50-52 | at the store the operation takes effect as a whole |
| LockedVariable.StepKeeps | window_manager/utils/include/class_var_definition.h:40-74 | every step of every thread keeps the invariant |
| LockedVariable.Linearizable | window_manager/utils/include/class_var_definition.h:40-74 | every run of any number of threads: the flag is up exactly when one thread is inside, never two, and the history is that of a register |
| LockedVariable.ReturnsTookPlace | window_manager/utils/include/class_var_definition.h:40-74 | every returned operation happened at one point between its own call and return |
| LockedVariable.NeverTorn | window_manager/utils/include/class_var_definition.h:40-54 | no get of any run returns a torn value |
| LockedVariable.NeverStuck | window_manager/utils/include/class_var_definition.h:45-51 | whoever is inside can go on, and on a free flag the next attempt that does not fail spuriously gets in |
| LockedVariable.ComesOut | window_manager/utils/include/class_var_definition.h:45-74 | whoever is inside comes out by itself, with the flag down and its operation done: a set leaves its value, a get returns the register's |
| LockedVariable.GetsThrough | window_manager/utils/include/class_var_definition.h:40-74 | on a free flag any thread on its way in gets through alone, after a failed attempt too, with the value of the register or its own left in the variable |
| WebKeys.WebResource.Release | arkui/core/components_ng/pattern/web/web_resource.cpp:34-59 | asked at most once and only where there is a platform to ask; number and hash go together |
| WebKeys.WebResource.MakeEventHash | arkui/core/components_ng/pattern/web/web_resource.cpp:100-110 | the event key of the resource's type and number |
| WebKeys.WebResource.MakeMethodHash | arkui/core/components_ng/pattern/web/web_resource.cpp:112-122 | the method key of the resource's type and number |
| WebKeys.KeysInjective | arkui/core/components_ng/pattern/web/web_resource.cpp:93-122 | within a type, keys are equal if and only if number, kind and name are, for all integers and names |
| WebKeys.TypesShareKeys | arkui/core/components_ng/pattern/web/web_resource.cpp:93-122 | two types can have a key in common if and only if one starts like a key of the other |
| WebKeys.PlainTypesNeverShare | arkui/core/components_ng/pattern/web/web_resource.cpp:93-122 | types without an `@` never have a key in common |
| WebKeys.WebObjectEventManager.RegisterObjectEvent | arkui/core/components_ng/pattern/web/web_object_event.h:234-237 | the callback replaces what the key had |
| WebKeys.WebObjectEventManager.UnRegisterObjectEvent | arkui/core/components_ng/pattern/web/web_object_event.h:252-255 | only that key goes |
| WebKeys.WebObjectEventManager.OnObjectEvent | arkui/core/components_ng/pattern/web/web_object_event.h:267-275 | the callback that is run, none for a missing or empty one |
| WebKeys.DispatchReachesLast | arkui/core/components_ng/pattern/web/web_object_event.h:227-275 | after every run an event reaches the callback last registered for its number and name, and no other |
| WebKeys.Dispatch | arkui/core/components_ng/pattern/web/web_object_event.h:267-275 | one dispatch after any run of registrations runs the callback last registered |
| EglExtension.SplitJoins | graphic_2d/android/render_context.cpp:67-80 | the split loses nothing and leaves no space in a piece |
| EglExtension.ListedStands | graphic_2d/android/render_context.cpp:62-83 | a name is a non-empty piece if and only if it stands by itself between spaces or ends, with no space inside |
| EglExtension.CheckEglExtension | graphic_2d/android/render_context.cpp:62-83 | the loop ends and finds a name exactly when it is a non-empty piece of the list |

## Left out

- The id counter of the singleton container is a number without an upper bound; the code's 32-bit counter would overflow after 2^31 additions, and it is shared by all containers, of which there is one.
- Singletons.SingletonContainer.Destroy: asks that the binding dependencies have no cycle, because with one the code's outer loop does not end; what such a teardown does erase is in `Singletons.StandstillIsStuck`. That counts are right or skewed holds after every run (`Singletons.RunsAccounted`).
- Instances of singletons are opaque values; nothing is said about what their destruction does.
- The interpreter of format directives (`output_p.inl` is not part of this model): a format is the list of writes it leads to. More than 2^31 writes after the buffer is full would wrap the stream's count, which here does not wrap.
- The Windows compatibility switch of the bounded printf, logging of errors, and `snprintfp_s`, which only forwards.
- A number parameter is an unbounded integer with the width of its type beside it, and a float its six-decimal text with sign, infinities and not-a-numbers kept apart.
- Letters and digits in names are the ASCII ones; locales are left out, and so are invalid UTF-8 bytes.
- `VerifyCustomEventParams`: its set of names is never filled, so there is no uniqueness to state; the remaining `IsValid...` predicates are of the same kind as `IsValidName`.
- The running id of an event.
- EventJson.AddCustomParams: takes the pairs in the order in which the unordered map yields them, which is open.
- White space and exponents in the JSON scanner: the printers produce neither.
- Real Vulkan, Skia and EGL behaviour: only success or failure, handle identity and who may destroy what. Queue families, usage flags of swapchain images, waiting for the device, and format conversion for the drawing library are not modelled.
- Window geometry calls, the render context's own state, and purging of the drawing context.
- SurfaceVulkan.RSSurfaceAndroidVulkan.FlushFrame: a frame kept across a later recreation is only checked by its index, as in the code; nothing is claimed about its contents, nor about a draw given up after an image was acquired.
- SwapChain.RSSurfaceSwapChain.Create: is reached through `Recreate` alone, with no swapchain held, as in the code.
- The mutex in `Recreate`, the maps' thread safety, and memory-ordering effects: one call at a time, and sequentially consistent steps for the locked variable.
- LockedVariable.NeverStuck: a weak compare-and-swap may fail for no reason for ever, so nothing is said about every thread getting in eventually.
- The producer side of imported textures: whether a texture id is known, which frame is newest and whether an update is pending are parameters, and releasing the frames' own buffers is not modelled.
- The conversion details recorded with an imported texture (sampling, colour model), which are copied fields.
- The two registries with results next to `WebObjectEventManager`'s plain one: the same code over other maps.
- `WebResource.GetIntParam` and its siblings, calls into the platform register, and the forwarding of web events.
- Stub files that return constants, the iOS variants, and plain setters and maps (user info, display listeners, window options): nothing to prove beyond their bodies.
