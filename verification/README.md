# Cask, modelled and proved in Dafny

Cask is a pastebin server: workers serve HTTP connections with epoll, timers live in a red-black tree, and the pastes live in
a file-backed hash table. This project models the parts of it that are hard to get right and proves what they promise.

| file | models |
|---|---|
| `rbtree.dfy` | `src/rbtree.c`: the red-black tree with parent pointers and one shared sentinel, changed in place |
| `event.dfy` | `src/event.c`: timers in that tree, `add_timer`, `del_timer`, `run_timers` |
| `common.dfy` | what several parts share |
| `decimal.dfy` | `snprintf("%lu")`, `strtol` and `strtoull` |
| `http.dfy` | what `src/request.c` makes of the received bytes, as functions |
| `chunks.dfy`, `stale.dfy`, `render.dfy` | parsing piece by piece, with stale memory behind the bytes, and of written requests |
| `names.dfy`, `texts.dfy` | the names of methods and versions, and which request lines and headers are accepted, by their literal texts |
| `request.dfy` | the parser itself, with its loops and its state, proved to compute those functions |
| `storage.dfy`, `db.dfy`, `runs.dfy`, `walks.dfy`, `store.dfy` | `src/db.c`: the file as bytes, one operation, whole runs, when a walk along links ends, and the operations with their loops |
| `lists.dfy`, `lifecycle.dfy`, `connection.dfy`, `worker.dfy` | `src/list.h`, `src/connection.c`, `src/worker.c`: the life of a connection and of a worker |
| `outcomes.dfy` | what becomes of a connection in a callback, said of the outcomes of its calls alone |
| `replies.dfy` | a reader of responses |
| `examples.dfy` | concrete inputs for the deviations listed below, and a timer and a file with their numbers |
| `pastes.dfy` | the two paste callbacks of `src/cask.c`, from request bytes to the database and back |
| `exchange.dfy` | written requests that arrive at a connection, and what a client reads from it |

The well-formedness of the tree is local: every node has ghost numbers (the range of in-order positions below it, its own
position, its black height) and agrees with its neighbours on them. `Tree.nodes` and `Tree.contents` are the in-order sequences
of node objects and payloads, and `WalkIsNodes` ties them to the pointers. The parser, the database and a connection are each
described twice: as imperative code over fields, and as functions; the methods are proved equal to the functions, and the
theorems are about the functions. What the functions are for is said without them: a reader of responses takes apart what
`send_response` puts together, request lines and headers are described by their texts, and the end of a connection by the outcomes
of its calls. What recv, send, accept and `epoll_ctl` come to are inputs.

## Where the code does not do what it is meant to do

Each of these is stated for all inputs, as an equivalence where there is a condition under which the code does meet its purpose.

- `src/db.c:192` writes the link to a new record at `offsetof(struct record, offset)`, which is 20, instead of at `next`, which
  is 12. With 12 (`INTENDED_LINK`) every run of insertions refines a map. With 20 (`SHIPPED_LINK`) a run does so exactly as long
  as it is no longer than the number of buckets (`Runs.ShippedRefines`): after that, the search for the id that equals this number
  ends without it (`Runs.LostValue`). Both loops still end on every such file (`Store.RunWalks`).
- `del_timer` clears the ACTIVE flag after the deletion (`src/event.c:142-143`). If the node has two children, the payload of its
  successor has been copied into it by then, so that the flag of the wrong timer is cleared, and the struct that was to be deleted
  stays in the tree while the successor's struct leaves it with its flag set. All timers in the tree stay active exactly when the
  node had a missing child (`Event.EventBase.DelTimer`), as it has in `run_timers`.
- `run_timers` neither calls nor removes an inactive timer at the front (`Event.EventBase.Iterate`). Its loop ends if and only if
  every timer that is due is active (`Event.EventBase.RunPasses`). Three timers, one of which has been deleted, are enough to keep
  it from ending (`Examples.DeletedTimerStalls`).
- `src/request.c:115` looks at two bytes that may lie behind the received ones. As long as the number of the Content-Length ends in
  the received bytes, they change the parse exactly when they seem to be the blank line that it waits for (`Stale.StaleBytes`). Where
  the number does not end, `strtol` reads stale bytes as well: for a header block at the end of the received bytes, no stale bytes
  change the parse if and only if the block ends the number (`Stale.StaleNumberIff`, `Examples.StaleLength`).
- `src/request.c:181` lets `strtol` run past an empty Content-Length value. Receiving the header block first comes to the same as
  receiving everything at once exactly when the block ends the number (`Chunks.ChunkIndependenceIff`).
- With exactly 32 headers, `src/request.c:114` leaves the loop before the blank line is read, and the body begins with it. Written
  requests come back exactly with fewer headers, or if the body is the same that way (`Render.RoundTrip`).
- The number of a Content-Length is cut down to an `int` before it is compared (`src/request.c:181-182`): a number above 128 KiB is
  refused exactly if it is below 2^63 and still above 128 KiB as an `int`, so that 4294967296 counts as no body (`Texts.TooLong`).
- While a request is incomplete, `read_data` calls recv again and again instead of going back to epoll (`src/connection.c:58-61`):
  any number of calls that return nothing leaves it where it was (`Lifecycle.WaitsForMore`). A connection that waits for an event
  never has a part of a request in its buffer (`Lifecycle.ReadsWhole`).
- `post_callback` prints the id into 20 bytes (`src/cask.c:174-176`), and sends a NUL for the last digit of a number with 20 digits.
  The answer is the id exactly when it is below 10^19 (`Pastes.PrintedIsId`); in a database that fits into a file it always is.

## Model

| member | source | states |
|---|---|---|
| RbTree.Tree.Insert | src/rbtree.c:22-45 | inserting keeps a valid red-black search tree and puts the node in front of the first payload that is not less than its own, and changes nothing else in the order |
| RbTree.Tree.Descend | src/rbtree.c:24-31 | the descent finds the missing child at that place, in at most as many steps as the tree is high |
| RbTree.Tree.InsertFixup | src/rbtree.c:162-200 | from a tree that is right but for a red node below a red parent, recolouring and both kinds of rotation restore all red-black conditions, and the loop ends |
| RbTree.Tree.InsertGrand | src/rbtree.c:162-200 | whenever the parent is red there is a black grandparent, so that the loop may look at it |
| RbTree.Tree.RotateLeft | src/rbtree.c:118-138 | a rotation keeps the links consistent and the in-order sequence as it is, and moves exactly these nodes |
| RbTree.Tree.RotateRight | src/rbtree.c:140-160 | the same, mirrored |
| RbTree.Tree.Delete | src/rbtree.c:47-77 | deleting any node leaves a valid tree whose contents lack exactly its entry; the node object that leaves is the node itself or, if it has two children, its successor, whose payload moves into it |
| RbTree.Tree.DeleteFixup | src/rbtree.c:202-256 | from a tree in which one subtree is one black node short, and which may be the sentinel, all conditions are restored, the sentinel stays black and keeps its children, and the loop ends |
| RbTree.Tree.DelSibling | src/rbtree.c:202-256 | the sibling is never the sentinel, even if the node is the sentinel with a borrowed parent |
| RbTree.Tree.Unlink | src/rbtree.c:57-72 | the splice moves only the links of the neighbours and the borrowed parent of the sentinel |
| RbTree.Tree.Victim | src/rbtree.c:49-56 | the node to splice out is the node itself or its successor in order, and has a missing child |
| RbTree.Tree.Leftmost | src/rbtree.c:79-89 | returns the first node in order, which has no left child, in at most as many steps as the tree is high |
| RbTree.Tree.Rightmost | src/rbtree.c:91-101 | returns the last node in order, in at most as many steps as the tree is high |
| RbTree.Tree.UpperBound | src/rbtree.c:103-116 | returns the first node that is greater than the key, or none if there is none, in at most as many steps as the tree is high |
| RbTree.Tree.WalkIsNodes | src/rbtree.c:79-116 | following the left and right pointers meets exactly the nodes of the ghost sequence, in its order |
| RbTree.Tree.BlackHeightBounds | src/rbtree.c:162-256 | a subtree of black height b is at most twice as high and holds at least 2^b - 1 nodes |
| RbTree.Tree.HeightBound | src/rbtree.c:27-31 | a valid tree of n nodes is at most 2 log2(n + 1) high |
| Event.TimerCmpIsComparator | src/event.c:22-33 | timer_cmp orders timers, several of which may have one trigger |
| Event.EventBase.AddTimer | src/event.c:128-137 | an inactive timer that is not in the tree enters it at its place, active and with the trigger that lies `interval` million nanoseconds after now, modulo 2^64; an active one, in the tree or not, is refused and nothing changes |
| Event.EventBase.DelTimer | src/event.c:139-147 | which entry and which struct leave the tree, which struct stays, and whose flag is cleared; all timers in the tree stay active if and only if the node had a missing child; an inactive timer is refused and nothing changes |
| Event.EventBase.Iterate | src/event.c:39-62 | one pass takes the first due timer out of the tree and clears its flag before its callback, whose function and data are still those of that timer; an inactive first timer is left where it is |
| Event.EventBase.RunPasses | src/event.c:35-63 | with more passes than there are timers, the loop is left if and only if every timer that is due is active; whatever it has called back is due, in order and once each, and is exactly what has been removed |
| Event.EventBase.RunTimers | src/event.c:35-63 | if the due timers are active, calls back exactly these, once each and in the order of their triggers, leaves exactly the others in a valid tree, and ends |
| Event.EventBase.AddAndRun | src/event.c:16-63 | a one-shot timer of n milliseconds added at t is called back by run_timers at `now` if and only if now >= t + n * 1,000,000; otherwise it is still in the tree |
| Event.EventBase.StallAtRoot | src/event.c:139-147 | in every tree of three active due timers or more, deleting the timer at the root keeps the loop of run_timers from ending |
| Event.EventBase.NotAllOuter | src/event.c:139-147 | in every tree of three timers or more there is one whose deletion moves a payload |
| Http.SplitRejoins | src/request.c:17-39 | the tokens with their delimiters make up the line again |
| Http.TokenClean | src/request.c:17-39 | no token but the last possible one holds a delimiter |
| Http.TrimMaximal | src/request.c:41-65 | exactly the blanks at both ends are cut off |
| Request.Split | src/request.c:17-39 | the loop computes the tokens of the line |
| Request.Trim | src/request.c:41-65 | the two loops compute the trimmed slice |
| Request.Span | src/request.c:7-15 | the loop finds the first occurrence or none |
| Request.Request.ParseStatusLine | src/request.c:67-109 | the status line is taken apart as its function says, or it fails or waits |
| Request.Request.ParseHeaders | src/request.c:111-137 | the loop over header lines, resumed from where it was, does what its function says |
| Request.Request.ParseRequest | src/request.c:157-217 | the four states with their fallthroughs do what the parsing function says, for any memory behind the received bytes; `Texts` and `Render` say what that function finds in texts |
| Texts.LineExactly | src/request.c:67-109 | a status line is accepted if and only if it is one of the nine method names, a URI without spaces, and one of the three version names with blanks around it, separated by spaces |
| Texts.ParsedLine | src/request.c:67-109 | a parsed request has exactly the method, URI and version that its first line spells out |
| Texts.RefusedLine | src/request.c:73-106 | any other first line is refused, whatever follows |
| Texts.KeepAliveByText | src/request.c:211-214 | a parsed request whose first line ends in "HTTP/1.1" sets the keep-alive flag; one that ends in "HTTP/1.0" or "HTTP/2.0" does not |
| Texts.MethodByText | src/http.c:4-14 | a parsed request has method number i if and only if its first line begins with the i-th name |
| Texts.GetAndPost | src/http.c:4-14 | number 0 is exactly "GET ", number 2 exactly "POST " |
| Texts.HeaderRefused | src/request.c:124-126 | a header line is refused if and only if it has no colon |
| Texts.NoColon | src/request.c:111-137 | a request with such a line is refused, whatever comes before it and behind it |
| Texts.LengthByText | src/request.c:178-189 | a header that is spelled "Content-Length" and gives the length of the body in digits, up to 128 KiB, brings the body back |
| Texts.TooLong | src/request.c:181-183 | a written request is refused for its Content-Length if and only if that number, cut down to an int by strtol and the cast, is above 128 KiB |
| Chunks.Resume | src/request.c:157-217 | as long as the header block ends the number of its Content-Length, a verdict is stable under more bytes, and parsing that has waited goes on as if all bytes had come at once |
| Chunks.ChunkIndependence | src/request.c:157-217 | under the same condition, which ChunkIndependenceIff shows to be exact, parsing any growing series of prefixes gives the verdict and the parts of one parse of the whole |
| Chunks.ChunkIndependenceIff | src/request.c:178-189 | a header block can be received on its own, whatever follows, if and only if it ends the number of its Content-Length |
| Stale.StaleBytes | src/request.c:114-118 | as long as the number of the Content-Length ends in the received bytes, bytes behind them change the parse if and only if they seem to be the blank line that is waited for |
| Stale.StaleNumberIff | src/request.c:178-189 | for a header block at the end of the received bytes, no bytes behind it change the parse if and only if the block ends the number of its Content-Length |
| Render.RoundTrip | src/request.c:67-217 | parsing a request written as in section 2.1 of RFC 9112 returns its parts if and only if it has fewer than 32 headers, or 32 and a body that the unread blank line does not change |
| Render.RenderIsParsed | src/request.c:67-217 | where the parts of a written request lie in the buffer, and that version number 1, which `Texts.KeepAliveByText` shows to be the text HTTP/1.1, sets the keep-alive flag |
| Render.ChunkedRoundTrip | src/request.c:157-217 | the same parts come back however the written request is cut into chunks |
| Decimal.ValueOfPrint | src/cask.c:149-175 | reading a printed number returns it |
| Decimal.NumberSettled | src/request.c:181 | a number is decided by the bytes up to its end |
| Database.InsertIs | src/db.c:159-210 | an insertion adds the bytes under the next id and keeps header, buckets and all other records, if the link goes into `next` or the bucket is empty |
| Database.GetIs | src/db.c:212-258 | a lookup returns exactly the bytes under the id, and nothing for an unknown one |
| Database.BucketChain | src/db.c:165-196 | the chain of bucket k holds exactly the ids k, k + B, k + 2B, ... that have been given out, in order, and ends there |
| Database.ChainSpread | src/db.c:165-196 | along a chain the offsets grow, and the records overlap neither each other nor the end of the file |
| Database.OffMono | src/db.c:165-206 | all records stand behind the buckets in the order of their ids, without overlap |
| Runs.IntendedRefines | src/db.c:159-258 | with the link in `next`, every run of insertions into a new file refines the map from ids to bytes, at every step and for any number of ids in a bucket |
| Runs.ShippedRefines | src/db.c:191-195 | with the shipped link, a run refines the map if and only if there have been at most as many insertions as buckets |
| Runs.FreshIsValid | src/db.c:86-110 | a new file is an empty database |
| Runs.StepHeaded | src/db.c:169-206 | with the shipped link, no chain ever gets longer than one record |
| Runs.LostValue | src/db.c:212-258 | once all buckets are full, the search for the id equal to their number ends without finding it |
| Store.Db.Create | src/db.c:86-110 | stretching the file and filling in header and buckets gives the new file |
| Store.Db.Last | src/db.c:176-189 | the loop comes to the last record of the chain or to one that cannot be read |
| Store.Db.Insert | src/db.c:159-210 | the code leaves the file, and returns the id or the error, that the insertion function says |
| Store.Db.Get | src/db.c:212-258 | the loop returns what the lookup function says |
| Store.ValidWalks | src/db.c:175-189 | both chain walks end in every database |
| Store.HeadedWalks | src/db.c:175-189 | both chain walks end in whatever the shipped link has made of a database |
| Store.RunWalks | src/db.c:165-254 | both walks end on every file of every run from a new file, for either link |
| Store.WalkEndsExactly | src/db.c:176-189 | the condition under which db_insert is called holds if and only if its loop ends after some number of steps |
| Store.FindEndsExactly | src/db.c:224-254 | the same for db_get |
| Walks.EndsWithin | src/db.c:176-189 | a walk along links that ends does so within as many steps as there are places with a link |
| Store.Db.Open | src/db.c:111-136 | opening fails exactly for a file without a whole header; otherwise it finds the next id, the number of buckets and the values of the database that the file holds |
| Store.ReopenedIsSame | src/db.c:112-136 | a file is the database of one number of buckets and one list of values only, so that closing and opening it changes none of them |
| Lists.AddTail | src/list.h:31-40 | the new link stands at the end of the ring |
| Lists.AddFront | src/list.h:29-40 | the new link stands at the front of the ring |
| Lists.Delete | src/list.h:45-55 | the ring closes over the deleted link, in the same order |
| Lifecycle.AnsweredAtOnce | src/connection.c:22-78 | the request that is answered is what one parse of the received bytes finds, however they arrived |
| Lifecycle.ReadsWhole | src/connection.c:22-78 | reading ends with a whole request answered or with the connection gone, never with a part of one |
| Lifecycle.WaitsForMore | src/connection.c:58-61 | while a request is incomplete, any number of calls of recv that return nothing leaves the loop where it was |
| Lifecycle.LifeConserves | src/connection.c:83-143 | over any run of callbacks and partial sends, the bytes sent are the responses, whole and in order, but for what is pending or was cut off by closing |
| Lifecycle.LeavesWhole | src/connection.c:83-112 | a sending connection goes back to reading, or is closed without an error, only with the last byte of its buffer |
| Connections.Connection.SendLoop | src/connection.c:83-112 | the loop sends the bytes of the buffer in order from where it was, as far as the outcomes of send say |
| Connections.Connection.ReadLoop | src/connection.c:25-77 | the loop receives and parses as the reading function says |
| Outcomes.SendAllIs | src/connection.c:83-112 | sending gets as far as the calls of send before the first one without room take, at most 4096 bytes each; it is broken off exactly if that one fails before the last byte, and waits if it does not |
| Outcomes.ReadIsRun | src/connection.c:22-78 | reading answers, or refuses, exactly if parsing what has been received at every pause of recv accepts, or refuses, a request; otherwise recv has ended or failed |
| Outcomes.CallbackIs | src/connection.c:114-143 | a callback ends the connection exactly for a wrong event, for recv that ends or fails, for a refused request, for a refused registration, for send that fails, or with the last byte if it is not to be kept; it reads again exactly if it is to be kept and the last byte is out; and which bytes go out |
| Outcomes.ArrivedIsParsed | src/connection.c:22-78 | a written request that arrives in any chunks, with pauses anywhere, comes back in its parts, and makes the connection one to keep if it was one or the version is HTTP/1.1 |
| Workers.Worker.IoCallback | src/connection.c:114-143 | the connection is closed if and only if one of the causes of `Outcomes.CallbackIs` is there, and the bytes sent are the rest of the buffer or the response as far as send takes them; otherwise it is live in one state with one matching registration and one timer; all others are untouched |
| Workers.Worker.ReadData | src/connection.c:22-78 | the same for read_data, through the route callback and begin_send |
| Workers.Worker.SendData | src/connection.c:83-112 | afterwards the connection is reading if and only if it is kept, epoll takes it and the rest of the buffer has gone out; it is still sending if and only if bytes are left and no send failed |
| Replies.ReplyIsRead | src/request.c:219-248 | a client that reads the first line, the header lines and as many bytes as "Content-Length: " says gets back the version, the status and exactly the body, with the keep-alive lines if and only if the connection is kept, whatever follows |
| Workers.Worker.SendResponse | src/request.c:219-248 | the response that `Replies.ReplyIsRead` takes apart is put together in the buffer and sent as far as it goes |
| Workers.Worker.BeginRead | src/connection.c:220-237 | the connection waits for input with one registration and one timer, or is closed |
| Workers.Worker.BeginSend | src/connection.c:239-257 | the same for sending |
| Workers.Worker.Reset | src/connection.c:197-218 | the request is cleared, the timer restarted and the registration dropped; adding the timer cannot fail |
| Workers.Worker.Close | src/connection.c:183-193 | exactly this connection leaves the list, the registrations and the timers, and the count goes down modulo 2^64 |
| Workers.Worker.TimeOut | src/connection.c:16-20 | a timeout closes exactly its connection |
| Workers.Worker.Accept | src/connection.c:145-181 | a new connection is listed and live, or was closed on the way with the count one too low |
| Workers.Worker.OnAccept | src/worker.c:52-66 | afterwards the count is the length of the list again, modulo 2^64, also when the connection was closed while it was accepted |
| Workers.Worker.RunIo | src/event.c:65-79 | the callbacks of a batch of events, of connections and of the listening socket, each do what they would do alone, and none meets a connection that has been freed |
| Workers.Worker.Destroy | src/worker.c:16-20 | the sweep closes every connection once, in order, and leaves an empty list, no registrations, no timers and a count of zero |
| Pastes.UriForms | src/cask.c:135-147 | which URIs pass the validation |
| Pastes.GetCallback | src/cask.c:129-159 | the loop accepts exactly those, and the answer is the paste or the right error |
| Pastes.PostCallback | src/cask.c:161-179 | the body is stored and the answer is the printed id, or the right error |
| Pastes.PrintedIsId | src/cask.c:174-176 | the answer is the decimal id if and only if that is below 10^19; above, a NUL stands for its last digit |
| Pastes.Fetched | src/cask.c:129-159 | a request for any digits, with or without a slash behind them, returns the bytes under their number, or is answered by "404 Not Found" and "Paste not found" if there are none |
| Pastes.FetchedParts | src/cask.c:129-159 | the same for the text of a written request |
| Pastes.BadUri | src/cask.c:135-147 | a written request whose URI has another character behind its first is answered by an empty "404 Not Found" |
| Pastes.EmptyPost | src/cask.c:161-168 | a written request without a body is answered by "400 Bad Request", and stores nothing |
| Pastes.BrokenPost | src/cask.c:171-172 | a post into a chain that cannot be read is answered by an empty "500 Internal Server Error", and uses up its id |
| Pastes.PasteRoundTrip | src/cask.c:129-179 | the body of a written POST request comes back to every written request for the id in its answer, after any run of later posts; with the shipped link, as long as there are no more pastes than buckets |
| Exchange.Serve | src/connection.c:22-143 | a written request that arrives in any chunks, on any event with something to read and with room to send, puts its whole response on the wire, from which a client reads version, status and body; the connection is kept exactly if it was kept before or the version is HTTP/1.1, and epoll takes it |
| Exchange.Post | src/cask.c:161-179 | over the wire: a written request with a body stores it under the next id, and a client reads that id from the response |
| Exchange.Get | src/cask.c:129-159 | over the wire: to a written request for an id, a client reads the stored bytes from the response |
| Exchange.PostAndGet | src/cask.c:129-179 | with the texts spelled out and on one connection: a client posts a body, reads an id, asks for it and reads its body |
| Examples.EmptyLength | src/request.c:178-189 | a request with an empty Content-Length for which receiving its header block first makes a difference |
| Examples.StaleBlankLine | src/request.c:114-118 | a status line with stale bytes behind it that is taken for a request with complete headers |
| Examples.StaleLength | src/request.c:178-189 | a complete request with an empty Content-Length that is taken to have a body because of a stale digit |
| Examples.FullHeaders | src/request.c:114-135 | a written request with 32 headers that does not come back |
| Examples.SecondPasteLost | src/db.c:191-195 | with one bucket and the shipped link, the second paste is stored but not found |
| Examples.DeletedTimerStalls | src/event.c:35-63 | three timers, one of which is deleted, after which run_timers does not end |
| Examples.ThreeMillis | src/event.c:16-63 | a timer of 3 ms added at 0 is not called at 2,999,999 ns and is called at 3,000,000 ns |
| Examples.TwoValues | src/db.c:159-206 | the bytes of a file with one bucket and two values, one by one |

## Left out

- Sockets, epoll, signals, memory mapping and file permissions are foreign calls. Their outcomes are inputs: sequences of what recv
  and send return, and whether `epoll_ctl` adds a registration. When the outcomes are used up, recv reports the end of the stream
  and send reports that it would block. Removing a registration that exists succeeds.
- Bytes are Dafny characters, and values are strings. Offsets and lengths are unbounded where the code casts sizes to `int`: buffers
  of 2^31 bytes and more are not modelled. The counters `num_conns`, the next id and trigger times do wrap at 2^64.
- RbTree.Tree.Insert: requires that the node is in no tree; the left and right fields of such a node point to itself until it is
  inserted, where the code has arbitrary bytes.
- RbTree.Tree.InsertFixup: its branches, and those of `delete_fixup`, are methods of their own, one for each case and side.
- One tree in one thread: the sentinel that the trees of several workers share is not modelled under concurrent use.
- Database.InsertIs: reading and writing the file and allocating memory succeed, and an operation is atomic under its lock; values
  are shorter than 2^32 bytes and files at most 2^63 - 1 bytes long.
- Store.Db.Insert: requires that the loop ends, which it does not in a file whose links make a cycle; the condition is exact
  (`Store.WalkEndsExactly`), and holds on all files that insertions produce (`Store.RunWalks`). A file shorter than what is mapped
  is not modelled either.
- Store.Db.Get: the same (`Store.FindEndsExactly`), and so `Pastes.GetCallback` and `Pastes.PostCallback`.
- Event.EventBase.AddTimer: requires that an inactive struct is not in the tree, into which the code would link it a
  second time. Timers that are not one-shot are left out, as no caller uses them, and so are callbacks of `run_timers` that change the tree.
- Workers.Worker.Close: the timers of connections are a set here. With the real tree, closing a connection whose timer node has two
  children leaves the struct that is about to be freed in the tree, and takes the struct of another connection out of it
  (`Event.EventBase.DelTimer`). That exactly one timer of each connection runs, and that all other connections are untouched, holds
  of the abstraction only.
- Workers.Worker.TimeOut: the same; the tree and `run_timers` are treated on their own.
- Connections.Connection.ReadLoop: the buffer's memory ends with the received bytes here; what stale bytes behind them do is said in
  `stale.dfy`.
- Workers.Worker.ReadData: the same. The route callback is an arbitrary status and body for `send_response`;
  `pastes.dfy` says what the two paste callbacks return. A buffer that cannot grow counts as a failing recv.
- Workers.Worker.Accept: failures of accept, fcntl and the allocations leave nothing behind and are one input of `OnAccept`; the number of
  a new descriptor is not registered yet.
- Pastes.PostCallback: a negative Content-Length, whose cast to an unsigned length reads beyond the buffer, is not modelled.
- `src/route.c`, `src/buffer.c`, `src/file.c`, `src/util.c` and `src/array.h` would only add easy members; the index page, the IPC
  socket, option parsing and the monitor are input and output.
