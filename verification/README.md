# Seeding distro torrents: a verified model

A container keeps seeding the current installation images of several Linux distributions. Once a day
`fetch_torrents.py` looks for new versions, drops `.torrent` files into the directory that
transmission-daemon watches, prints the seed ratios, and removes superseded versions;
`torrent_scrape.py` reads torrent files and asks trackers how many peers want an old release. This
project models both and proves what they promise.

| file | models |
|---|---|
| `Lex.dfy`, `Decimal.dfy`, `Optional.dfy`, `Strings.dfy` | tuple order, decimal numerals, options, blanks, digits and `strip` |
| `BencodeCodec.dfy` | the bencode decoder (as a loop and as a function) and the canonical printer |
| `BencodeTheory.dfy`, `BencodeGrammar.dfy`, `BencodeCanonical.dfy` | round trips, the accepted language, canonical text and the info-hash |
| `UdpTracker.dfy` | the two-round-trip UDP exchange of BEP 15 |
| `TorrentNames.dfy` | distribution, image type and version of a name |
| `RatioGate.dfy`, `RatioGateTheory.dfy` | the ratio gate, the record that speaks for a version, and what a removal does to it |
| `GateOverRuns.dfy` | the gate of a whole state: log, saved history, and the plans cleanups carry out |
| `Candidates.dfy` | which held torrents are superseded |
| `RatioHistory.dfy` | the sampled ratio history and the stagnation anchor |
| `Cleanup.dfy`, `CleanupTheory.dfy` | the three cleanup paths as methods of a class, and their plans |
| `OldReleases.dfy` | the old-release demand check over many runs |
| `WatchDirectory.dfy` | the watch directory shared with a renaming daemon, one system call at a time |
| `Pattern.dfy`, `RatioLog.dfy`, `RatioLogTheory.dfy` | the ratio log, the regular expression it is read with, and the round trip |

`dafny verify dfyconfig.toml` checks everything.

Conventions. Dates are day numbers, ratios are integers in thousandths (the grain of the ratio log
and of `record_removal`), a version is a sequence of naturals under lexicographic order, a Python
dict is a map, or a list of entries in insertion order where the order shows. Exceptions are the
error cases of outcome datatypes. Functions of one argument stand for what the model cannot see:
the digest, the network's replies, the disk readings, the scrape results.

Code that loops and updates is a method proved against a function; the theorems are about the
function. The main results:

- The decoder accepts exactly a grammar written without indices (`BencodeGrammar.DecoderIsTheGrammar`),
  undoes the printer in any surroundings (`BencodeTheory.RoundTripInContext`), and printing a decoded
  value gives the bytes back if and only if they were canonical
  (`BencodeCanonical.ReencodingIsExactOnCanonicalText`). The docstring of `bencode`
  (torrent_scrape.py:98-101) promises this for every input; the code keeps it for canonical input only.
- The ratio gate equals its declarative form. The docstring of `should_fetch_torrent`
  (fetch_torrents.py:446-451) says that removed versions go on being gated. For every plan a cleanup carries
  out, and for every sequence of plans, `GateOverRuns.CleanupMovesAGateIff` and
  `GateOverRuns.CleanupsMoveAGateIff` say exactly when all versioned candidates are answered as before, in
  terms of the state before. It is so whenever the ratio log lists the removed torrents, each is recorded
  with a ratio on the side of 1.0 it is listed on, and no two names on the books read as the same version
  (`GateOverRuns.CleanupsNeverMoveTheGate`). It can fail otherwise: the log pattern does not match a negative
  ratio, so a torrent held at Transmission's -1 is not listed, and once removed its recorded -1.0 closes
  gates that were open (`GateOverRuns.StagnationClosesAGate`); and of two names that read as one version
  another one may speak after the removal (`GateOverRuns.TwinClosesAGate`).
- The removed history keeps old releases out (`OldReleases.RemovedReleasesStayOut`) but not what
  `_fetch_latest` lists: a removed version comes back if and only if its own gate is open, and that gate
  reads strictly older versions only (`GateOverRuns.RemovedComesBackIff`), so the oldest version of an image
  comes back as long as upstream lists it (`GateOverRuns.TheOldestComesBack`).
- Over any run of cleanups each family keeps its newest member
  (`Candidates.NewestSurvivesEveryRun`), with arrivals in between its newest member never gets older
  (`Candidates.FamiliesNeverAge`), no name is removed as stagnant within the window after an
  earlier removal of it (the invariant of `Cleanup.Seeder`), and repeating a plan removes nothing.
- Runs at most two days apart always leave an anchor once a torrent has been tracked for the window, and
  two days is the limit for every interval and every window of at least a day
  (`RatioHistory.NeverStarvesIff`), so the daily schedule is needed.
- In every interleaving of script steps, failures, kills and daemon renames, a watched file is complete
  (`WatchDirectory.NoPartialWatchFile`). Completed writes equal removals plus the file that is there exactly
  as long as no write is put in place while the name has a file (`WatchDirectory.WritesAreConservedIff`);
  only a failed look at a file that is there can bring that about, because `os.path.exists` reports a
  failure as absence (`WatchDirectory.WritesAreConserved`, `WatchDirectory.FailedLookHidesAFile`). In every
  such interleaving an undisturbed removal leaves neither file (`WatchDirectory.RemovalRemoves`), two looks are
  exact (`WatchDirectory.LooksAreExact`) and a download arrives whole (`WatchDirectory.WriteArrives`). The
  lemmas `ReversedCheckMisses` and `ReversedRemovalLeavesAFile` show why the two looks and the two removals
  come in the order they do.
- What each verdict depends on is stated without the functions that compute it, in ratios, days, bytes and
  counts: the gate (`RatioGateTheory.GateInRatios`, `RatioGateTheory.DevuanGateInRatios`), what a family keeps
  (`Candidates.TheLatestDevuanIsKept`, `Candidates.TheGreatestVersionIsKept`), the three plans
  (`CleanupTheory.CleanupPlanIff`, `CleanupTheory.StagnationPlanIff`, `CleanupTheory.PressureInBytes`) and, over
  runs, how much growth keeps a torrent (`CleanupTheory.GainDecides`), and which old release is added
  (`OldReleases.DemandIff`, `OldReleases.CandidateIsAddedIff`).
- The backtracking matcher finds the most preferred way to cut the text
  (`Pattern.MatchIsPreferred`), and a printed line of the ratio log reads back exactly when the name
  has no entry of its own inside (`RatioLogTheory.LineReadsBackIff`).

## Model

| member | source | states |
|---|---|---|
| BencodeCodec.Decode | torrent_scrape.py:40-95 | on every byte string and start index decoding ends, with an error or with an end strictly behind the start and at most the length |
| BencodeCodec.Bdecode | torrent_scrape.py:40-95 | the loops that advance the index and fill the list and the dict in place compute the recursive decoder, errors included |
| BencodeGrammar.DecoderIsTheGrammar | torrent_scrape.py:37-95 | decoding succeeds with a value and an end if and only if the bytes up to that end denote the value in a grammar without index or search (leading zeros, minus zero, unsorted and repeated keys included) |
| BencodeGrammar.IntegerTextIff | torrent_scrape.py:36-56 | the accepted integer texts are exactly any digits with or without a minus sign, and the value is the number they make |
| BencodeTheory.Locality | torrent_scrape.py:40-95 | a successful decode depends on nothing outside the bytes it consumes, wherever those stand |
| BencodeTheory.Truncation | torrent_scrape.py:40-95 | input cut anywhere before the end of a value is an error, never another value |
| BencodeTheory.PrefixFree | torrent_scrape.py:40-95 | of two fully accepted texts neither is a proper prefix of the other |
| BencodeTheory.RoundTrip | torrent_scrape.py:40-125 | where the printed value stands in the data, decoding gives the value and stops right behind it, and the text is canonical |
| BencodeTheory.RoundTripInContext | torrent_scrape.py:40-125 | the same with any bytes in front and behind |
| BencodeTheory.UniquelyReadable | torrent_scrape.py:98-125 | streams that start with two encodings and are equal start with the same value and continue equally: printing is injective and prefix-free |
| BencodeCanonical.Reprint | torrent_scrape.py:40-125 | canonical text is printed back byte for byte from its value |
| BencodeCanonical.ReencodingIsExactOnCanonicalText | torrent_scrape.py:98-125 | re-encoding an accepted input reproduces its bytes if and only if they are canonical: plain numerals, strictly ascending keys |
| BencodeCanonical.ReencodingKeepsTheValue | torrent_scrape.py:40-125 | the re-encoding of any accepted input is canonical and decodes to the same value |
| BencodeCanonical.LenientInputsAreNotReproduced | torrent_scrape.py:37-101 | "i00e" is accepted, is not canonical and is not printed back |
| BencodeCanonical.InfoHashIsOfTheRawSlice | torrent_scrape.py:128-135 | a hash comes out exactly for dictionaries with an info entry, it is the digest of the re-encoded last info value, and that text is the raw slice if and only if the slice is canonical |
| BencodeCanonical.CanonicalTorrentHash | torrent_scrape.py:128-135 | of a canonical torrent file the digest is taken over the raw bytes of the info value |
| BencodeCanonical.InfoKeyIsSpelled | torrent_scrape.py:128-135 | the key whose value is hashed spells "info" |
| BencodeCanonical.StandardExamples | torrent_scrape.py:98-125 | the standard examples of the format come out byte by byte |
| UdpTracker.PackedNumber | torrent_scrape.py:202-253 | a number that fits survives packing into big-endian bytes |
| UdpTracker.NumberPacked | torrent_scrape.py:202-253 | every byte field is the packing of its number: no information is lost the other way |
| UdpTracker.Field32 | torrent_scrape.py:202-253 | a 32-bit field reads back from anywhere in a datagram, for all values |
| UdpTracker.Field64 | torrent_scrape.py:202-238 | a 64-bit field reads back from anywhere in a datagram, for all values |
| UdpTracker.BigEndian | torrent_scrape.py:202-205 | a 32-bit field is sent most significant byte first |
| UdpTracker.ConnectRequestOnTheWire | torrent_scrape.py:179-205 | the connect datagram is the magic number of BEP 15, action 0 and the transaction id |
| UdpTracker.RequestFields | torrent_scrape.py:232-238 | connection id, action, transaction id and hash are at their BEP 15 offsets of a scrape request |
| UdpTracker.ScrapeRequestOnTheWire | torrent_scrape.py:232-238 | the scrape datagram is the connection id, the bytes 0 0 0 2, the transaction id and the hash |
| UdpTracker.ErrorRepliesAreReported | torrent_scrape.py:208-229 | a reply of the bytes 0 0 0 3, the own transaction id and a text is the tracker's error with that text, after either request |
| UdpTracker.LongDatagramsAreCut | torrent_scrape.py:260-286 | of a reply the first 2048 bytes are read |
| UdpTracker.ConnectReplyParses | torrent_scrape.py:220-229 | a well-formed connect reply to the own transaction yields its connection id |
| UdpTracker.ScrapeReplyParses | torrent_scrape.py:241-253 | a well-formed scrape reply to the own transaction yields its three counts |
| UdpTracker.ForeignRepliesAreRejected | torrent_scrape.py:208-253 | a reply carrying another transaction id is an error, and not the tracker's error |
| UdpTracker.ScrapeUdpTracker | torrent_scrape.py:260-286 | on a fresh socket the calls send and conclude exactly what the exchange prescribes, and the socket is closed on every path |
| UdpTracker.StatsComeFromOwnTransaction | torrent_scrape.py:208-286 | against any network: counts come out if and only if the connect reply answers the connect id and the second reply answers the scrape id under the connection id obtained, and they are that reply's fields |
| UdpTracker.HonestTrackerIsReadExactly | torrent_scrape.py:202-286 | against a tracker that follows BEP 15 the result is its exact counts for the hash, for all ids |
| TorrentNames.JoinSplit | fetch_torrents.py:379-411 | joining what `split` gives restores the text |
| TorrentNames.SplitJoin | fetch_torrents.py:379-411 | splitting joined parts gives the parts, if none holds the separator |
| TorrentNames.VersionTextAndTypeDetermineTheName | fetch_torrents.py:365-411 | for Ubuntu, Debian, Kali and Mint names with a non-empty suffix, equal version text and type mean equal names |
| TorrentNames.TwinNames | fetch_torrents.py:372-376 | version tuples do not determine names: "24.04" and "24.4" of one image read the same |
| TorrentNames.NextName | fetch_torrents.py:379-411 | for every name that reads as a version some name of the same image reads as the very next one |
| TorrentNames.DistroIff | fetch_torrents.py:252-275 | a name belongs to the one distribution whose literal beginning it has, and is a Devuan name if it begins so |
| TorrentNames.WordVersionRest | fetch_torrents.py:379-411 | in Ubuntu, Arch and Mint names of any words the second part is the version; the type is first part and rest, nothing, or the rest |
| TorrentNames.WordVersionArchRest | fetch_torrents.py:379-411 | in Debian names the second part is the version and what is behind it the type |
| TorrentNames.WordsVersionRest | fetch_torrents.py:379-411 | in Kali names the third part is the version and what is behind it the type |
| TorrentNames.WordsArchVersion | fetch_torrents.py:379-411 | in Fedora names of any words the last part is the version and the one before it the type |
| TorrentNames.IntTextIff | fetch_torrents.py:372-376 | a version part is accepted if and only if, without blanks around it and one plus sign, it is groups of digits between single underscores; its value is the number of all the digits |
| TorrentNames.VersionIff | fetch_torrents.py:372-376 | parts read as a version if and only if each reads as a number, and the version is those numbers in order |
| Lex.LessIff | fetch_torrents.py:502-506 | versions are ordered by the first place where they differ, a version before its extensions |
| RatioGate.Greatest | fetch_torrents.py:502-506 | the greatest of the versions found under the tuple order |
| RatioGate.TypeRatios | fetch_torrents.py:469-496 | the two loops fill the table with exactly the versions on record for the group, a live entry beating removed history even when only the version tuple coincides |
| RatioGate.ShouldFetchTorrent | fetch_torrents.py:443-506 | true if and only if the check is skipped, the name has no readable group or version, or the greatest strictly older version on record, if any, has a ratio of at least 1.0; Devuan by its own rule |
| RatioGateTheory.GateInRatios | fetch_torrents.py:443-506 | in the unit the log shows: closed exactly if the check is on, the candidate has a group and version, and the greatest strictly older version on the books has a ratio below 1.0 |
| RatioGateTheory.DevuanGateInRatios | fetch_torrents.py:414-440 | Devuan: open for a listed release; else closed exactly if the other listed releases, or without any the removed ones with a ratio, are there and all below 1.0 |
| RatioGateTheory.RecordedIsTheSpeaker | fetch_torrents.py:469-496 | with the log in descending and the saved history in name order, the loops find for a version the least ratio among the listed names that read so, and if there is none the ratio of the first removed one by name |
| RatioGateTheory.GateReadsTheBooks | fetch_torrents.py:443-506 | the gate's answer for a versioned candidate depends on its two dicts only through that record |
| RatioGateTheory.RemovalsElsewhere | fetch_torrents.py:443-506 | removing any names, listed or not, leaves the record of every version alone that none of them reads as |
| RatioGateTheory.RemovalsSpeak | fetch_torrents.py:443-506 | what speaks afterwards for a version some removed name reads as, told from the books before: the least ratio of the listed names that are left, else the first by name of those removed before and now |
| RatioGateTheory.RemovalsMoveAGateIff | fetch_torrents.py:443-506 | any number of removals, listed or not, twins or not, with whatever ratios: no candidate's gate moves if and only if, for every version some removed name reads as, what will speak for it is at 1.0 or more just when the version after it would be fetched now |
| RatioGateTheory.GateOfTheSuccessor | fetch_torrents.py:499-506 | the version right after a recorded one is gated on that one alone |
| RatioGateTheory.RemovalMovesAGateIff | fetch_torrents.py:443-506 | the same for one removal |
| RatioGateTheory.UnreadableNamesMoveNoGate | fetch_torrents.py:443-506 | removing names that do not read as versions moves no gate |
| RatioGateTheory.FairRemovalsMoveNoGate | fetch_torrents.py:443-506 | without twins, removing listed names with ratios on their sides of 1.0 moves no gate and makes no twins |
| RatioGateTheory.ListedTwinsOnlyOpen | fetch_torrents.py:443-506 | a removal while another listed name reads as the same version never closes a gate |
| RatioGateTheory.ListedRecordsAreIgnored | fetch_torrents.py:481-484 | what the history says of names the log lists changes no answer |
| RatioGateTheory.GateReadsOlderOnly | fetch_torrents.py:443-506 | a gate reads the records of strictly older versions of its image and nothing else, not the candidate's own |
| RatioGateTheory.OldestIsOpen | fetch_torrents.py:499-506 | with no older version on the books the gate is open |
| GateOverRuns.LogIsWhatIsRead | fetch_torrents.py:226-249 | the list of held torrents without the negative ratios, highest ratio first, is the dict `get_previous_ratios` reads from the log printed of them, keys in order |
| GateOverRuns.LogLists | fetch_torrents.py:1272-1283 | that list is descending and holds exactly the names held with a ratio that is not negative |
| GateOverRuns.FiledFiles | fetch_torrents.py:1027-1046 | the history as saved and loaded again is in name order and complete |
| GateOverRuns.CarryIsRemovals | fetch_torrents.py:1049-1068 | carrying out a plan takes its names off the log and merges its records into the history, whether or not the log listed the torrents |
| GateOverRuns.CleanupMovesAGateIff | fetch_torrents.py:443-506 | for every plan of held torrents, whatever their ratios: `should_fetch_torrent` answers every versioned candidate as before if and only if, for every version some of them reads as, what will speak for it is at 1.0 or more just when the version after it would be fetched now |
| GateOverRuns.CleanupsMoveAGateIff | fetch_torrents.py:443-506 | the same condition for any sequence of plans, told from the state before the first |
| GateOverRuns.RemovingATorrentMovesAGateIff | fetch_torrents.py:443-506 | the same for one torrent |
| GateOverRuns.CleanupNeverMovesTheGate | fetch_torrents.py:443-506 | sufficient for that: the log lists the plan's torrents, each is recorded on its side of 1.0, and no two names on the books read as the same version; and the last is kept |
| GateOverRuns.CleanupsNeverMoveTheGate | fetch_torrents.py:443-506 | and for any sequence of such plans |
| GateOverRuns.TheRunInBetween | fetch_torrents.py:1906-1908 | the run that still reads the log from before the cleanup, beside the new history, answers as before, twins or not |
| GateOverRuns.RatioCleanupMovesNoGate | fetch_torrents.py:1374-1403 | the cleanup by a ratio floor that is not negative moves no gate, whatever is held, if there are no twins |
| GateOverRuns.StagnationAndPressureMoveNoGate | fetch_torrents.py:1406-1636 | nor do the stagnation cleanup and the disk valve while no candidate is held at a negative ratio |
| GateOverRuns.RemovedComesBackIff | fetch_torrents.py:1787-1817 | a removed version that upstream lists and hosts is downloaded again if and only if its own gate is open, in the next run, which still reads the old log, and after it; and that gate never reads the record of its removal |
| GateOverRuns.TheOldestComesBack | fetch_torrents.py:1787-1817 | a removed version with no older one on the books is downloaded again in the next run, whatever its ratio was |
| GateOverRuns.StagnationClosesAGate | fetch_torrents.py:1583-1636 | two versions of one image held at -1, no twins: the stagnation cleanup, on the history it has updated, removes the older one and closes the gate of every later version, open before |
| GateOverRuns.TwinClosesAGate | fetch_torrents.py:1374-1403 | with a twin that precedes it by name on the history at 0.2, removing the held one at 1.5 closes the gate of every later version |
| GateOverRuns.BothHappen | fetch_torrents.py:443-506 | both happen to concrete names |
| Candidates.CollectOldVersions | fetch_torrents.py:1312-1340 | grouping, sorting and slicing as written give the candidate list of the specification |
| Candidates.NewestIsFirstHighest | fetch_torrents.py:1312-1340 | the newest member of a family is the first-listed one of highest rank, and there is one if the family has a member |
| Candidates.NewestIsHighest | fetch_torrents.py:1312-1340 | no member of a family outranks its newest |
| Candidates.SortIsStable | fetch_torrents.py:1336-1340 | the descending sort keeps equal ranks in listing order |
| Candidates.FirstIsNewest | fetch_torrents.py:1336-1340 | what the sort puts first, and the slice spares, is the newest member |
| Candidates.CandidatesAreTheSuperseded | fetch_torrents.py:1312-1340 | a torrent is a candidate if and only if it is held, has a family and is not that family's newest, and each is listed once |
| Candidates.TheLatestDevuanIsKept | fetch_torrents.py:1286-1340 | of the held Devuan releases one is spared and all others are candidates, none added later than it, a missing date counting as 0 |
| Candidates.TheGreatestVersionIsKept | fetch_torrents.py:1312-1340 | of the held versions of an image one is spared and all others are candidates, none of a greater version tuple |
| Candidates.OtherNamesAreKept | fetch_torrents.py:1312-1340 | a name that is neither Devuan's nor reads as a version is never a candidate |
| Candidates.NewestSurvives | fetch_torrents.py:1312-1340 | removing anything but a family's newest leaves it the newest |
| Candidates.RemovalLeavesTheRest | fetch_torrents.py:1312-1340 | after removing superseded torrents the superseded ones are exactly the former without the removed |
| Candidates.NewestSurvivesEveryRun | fetch_torrents.py:1374-1636 | after any run of cleanups every family has the newest member it started with, and only then superseded torrents are gone |
| Candidates.FamiliesNeverAge | fetch_torrents.py:1312-1340 | over any history of cleanups and arrivals, in any order and with torrents numbered anew, no family vanishes and its newest member is never replaced by an older one |
| RatioHistory.UpdateRatioHistory | fetch_torrents.py:1514-1541 | the loop yields, for exactly the current torrents, the filtered, extended and pruned samples |
| RatioHistory.UpdateShape | fetch_torrents.py:1514-1541 | an update drops the samples up to the removal, appends today when the interval has passed, and drops those older than window plus interval: the rest is a suffix in order |
| RatioHistory.UpdateKeepsTheBound | fetch_torrents.py:1505-1541 | spacing of at least the interval and at most window/interval + 2 samples survive an update on any date |
| RatioHistory.HistoryStaysBounded | fetch_torrents.py:1505-1541 | after any runs, on any dates and with the clock set back, every torrent's samples keep spacing and bound, and the keys are the torrents of the last run |
| RatioHistory.AnchorIsTheOldest | fetch_torrents.py:1544-1555 | of spaced samples the anchor is the oldest one, if and only if that is at least the window old |
| RatioHistory.AnchorIs | fetch_torrents.py:1544-1555 | for samples in any order: the anchor is the oldest of those at least the window old, and there is none exactly if none is so old |
| RatioHistory.CoverageOverRuns | fetch_torrents.py:1514-1555 | with runs at most two days apart and no later removal, after every run the oldest sample is the first ever taken or at least the window old |
| RatioHistory.TrackedLongEnoughIsJudged | fetch_torrents.py:1514-1555 | such a torrent has an anchor if and only if it has been tracked for the window, and the anchor is between window and window plus interval old |
| RatioHistory.RunsTrack | fetch_torrents.py:1514-1541 | for a torrent reported in every run, the whole history keeps what tracking it alone gives |
| RatioHistory.ReportedTorrentIsJudged | fetch_torrents.py:1514-1555 | so over any runs at most two days apart its samples in the history hold an anchor exactly from the day it has been tracked for the window |
| RatioHistory.ReportedAnchor | fetch_torrents.py:1514-1555 | and the anchor is what one of the runs between the window and an interval more than the window ago reported |
| RatioHistory.ThreeDayGapsStarve | entrypoint.sh:60-63 | with gaps of three days some history of runs leaves a torrent tracked long enough without an anchor, for every interval and every window of at least a day |
| RatioHistory.NeverStarvesIff | fetch_torrents.py:1514-1555 | every torrent tracked for the window has an anchor, in every history of runs at most a given gap apart, if and only if the gap is at most two days or the window is 0 |
| RatioHistory.UpdateTwiceIsOnce | fetch_torrents.py:1514-1541 | updating again on the same day changes nothing |
| RatioHistory.AnchorPostdatesRemoval | fetch_torrents.py:1514-1580 | after an update every anchor is younger than the removal on record, so a verdict falls at least window + 1 days after it |
| RatioHistory.WindowZeroJudgesAtOnce | fetch_torrents.py:1514-1555 | with a window of 0 the sample of the day of removal is an anchor, so the condition on the window is needed |
| Cleanup.PlanCleanupLists | fetch_torrents.py:1361-1371 | the plan's two lists split the candidates by the ratio floor, order kept |
| Cleanup.PlanStagnationLists | fetch_torrents.py:1558-1580 | the plan's two lists split the candidates by growth since the anchor, order kept, those without an anchor kept |
| CleanupTheory.CleanupPlanIff | fetch_torrents.py:1361-1371 | a torrent is planned if and only if it is superseded and the check is skipped or its ratio is at least the floor |
| CleanupTheory.StagnationPlanIff | fetch_torrents.py:1558-1580 | a torrent is planned if and only if it is superseded, some sample of it is at least the window old, and its ratio is below that of the oldest such sample plus the delta |
| CleanupTheory.GainDecides | fetch_torrents.py:1514-1580 | over runs at most two days apart that report it: before the window is over a superseded torrent is not planned; from then on it is planned if and only if it gained less than the delta since a run between the window and seven days more ago |
| CleanupTheory.WeeklySampling | fetch_torrents.py:1514-1541 | a sample is taken seven days after the last one and not before |
| CleanupTheory.PlanIsCarriedOut | fetch_torrents.py:1374-1636 | exactly the planned torrents go, the watch files of their safe names go, each is on record with today's date, the reason and its own ratio, and all other records stay |
| Cleanup.Needed | fetch_torrents.py:1462-1465 | the valve passes every reading at or above the threshold and stops at the first below |
| Cleanup.ByRatioIsDrawn | fetch_torrents.py:1406-1420 | ordering the candidates neither adds nor loses any |
| Cleanup.GoodPlan | fetch_torrents.py:1361-1636 | every plan drawn from the candidates names only superseded torrents, each name once if the names held are different |
| Cleanup.VerdictsComeLate | fetch_torrents.py:1558-1636 | every stagnation verdict falls more than the window after the removal on record for the name |
| Cleanup.LogGrows | fetch_torrents.py:1374-1636 | carrying out a plan keeps: every removal on record, and no stagnant removal of a name within the window of an earlier one |
| Cleanup.CarryKeepsSound | fetch_torrents.py:1374-1636 | the class invariant survives any plan drawn from the candidates, and the step is a cleanup step |
| Cleanup.Seeder.RemoveTorrent | fetch_torrents.py:1343-1400 | the torrent leaves the listing, its watch files go if its name is safe, and nothing else changes |
| Cleanup.Seeder.RemoveAll | fetch_torrents.py:1374-1403 | the loop with its history copy has the effect of the whole plan at once |
| Cleanup.Seeder.CleanupOldVersions | fetch_torrents.py:1374-1403 | the state becomes the planned one and the invariant holds |
| Cleanup.Seeder.CleanupStagnantTorrents | fetch_torrents.py:1583-1636 | history, plan and records are those of the listed ratios of today, and the invariant holds |
| Cleanup.Seeder.RelievePressure | fetch_torrents.py:1461-1479 | with a reading before every removal exactly the needed prefix of the candidates goes |
| Cleanup.Seeder.EnforceDiskUsageLimit | fetch_torrents.py:1429-1479 | the state becomes the one the valve's plan describes and the invariant holds |
| CleanupTheory.LowestRatioFirst | fetch_torrents.py:1406-1420 | the valve's order is a permutation of the candidates with ascending ratios |
| CleanupTheory.EqualRatiosKeepTheirOrder | fetch_torrents.py:1406-1420 | candidates of equal ratio keep their order |
| CleanupTheory.PressureRemovesTheShortestPrefix | fetch_torrents.py:1406-1479 | the valve removes the shortest lowest-ratio-first prefix that brings usage below the threshold, or all; nothing when it is off or the first reading is below; every removal follows a reading at or above |
| CleanupTheory.PressureInBytes | fetch_torrents.py:1423-1479 | in used and total bytes: nothing goes unless the valve is on and the first reading is at the threshold, every removal follows such a reading, and it goes on until there is none or no candidate is left |
| CleanupTheory.HistoryGainsExactlyThePlan | fetch_torrents.py:1049-1068 | the removed history gains exactly the plan's names with date, reason and ratio, and keeps every other record |
| CleanupTheory.PlanRepeatsToNothing | fetch_torrents.py:1361-1371 | a planner that picks by the torrent alone picks nothing among the survivors of its plan |
| CleanupTheory.CleanupRepeatsToNothing | fetch_torrents.py:1374-1403 | repeating the ratio cleanup removes nothing more |
| CleanupTheory.PressureRepeatsToNothing | fetch_torrents.py:1429-1479 | a second pass of the valve removes nothing if the first left no candidate, or if the disk is no fuller than at the reading that stopped the first |
| CleanupTheory.StagnationRepeatsToNothing | fetch_torrents.py:1583-1636 | repeating the stagnation cleanup on the same day, on the history and records it left, removes nothing more |
| OldReleases.DemandIsMonotone | fetch_torrents.py:918-950 | demand implies the absolute floor and, without seeders, the setting that allows it; more leechers or fewer seeders keep it, the last seeder excepted |
| OldReleases.DemandIff | fetch_torrents.py:918-950 | for every scrape demand holds if and only if the leechers reach the least number needed: the greater of the floor and the ratio (a fraction) times the seeders, rounded up; without seeders the floor, if allowed |
| OldReleases.CandidatesAre | fetch_torrents.py:1105-1130 | a name is a candidate if and only if a selected distribution lists it and it is not low-demand, or these are included |
| OldReleases.Checker.CheckCandidate | fetch_torrents.py:1130-1215 | one pass of the loop: unsafe, present, removed and recently checked names are not evaluated, a failed write is not recorded as checked |
| OldReleases.Checker.CheckEach | fetch_torrents.py:1130-1215 | the loop over one distribution continues the count over the candidates before it |
| OldReleases.Checker.CheckOldReleasesForDemand | fetch_torrents.py:1084-1217 | the nested loops consider the filtered candidates of the selected distributions in order, and nothing else |
| OldReleases.CandidatesAreAccountedFor | fetch_torrents.py:1120-1217 | added plus skipped plus already present is the number of candidates |
| OldReleases.CandidateIsAddedIff | fetch_torrents.py:1130-1215 | at its turn in any run a candidate is evaluated if and only if it is due, and added if and only if it then has the least number of leechers needed and the file can be written; it is on file as checked today unless that write failed |
| OldReleases.EvaluationsAreApart | fetch_torrents.py:1015-1217 | over any runs on non-decreasing dates, two evaluations of one name are at least the recheck interval apart unless the earlier one ended in a failed write |
| OldReleases.RunEvaluatesNoRemovedName | fetch_torrents.py:1130-1154 | a run only appends evaluations, each of a safe candidate that is not on the removed history, dated today |
| OldReleases.RunWritesWhatItReports | fetch_torrents.py:1170-1185 | the names a run adds to the watch directory are exactly those it reports as added, and the counter is their number |
| OldReleases.RunLeavesRemovedNames | fetch_torrents.py:1130-1172 | a run neither adds a removed name to the watch directory nor takes it away |
| OldReleases.RemovedReleasesStayOut | fetch_torrents.py:1820-1857 | once a name is on the removed history that runs skip, no later run evaluates it or puts it into the watch directory |
| WatchDirectory.PathsDoNotCollide | fetch_torrents.py:531-575 | part file, watched file and loaded file of all names are different files |
| WatchDirectory.SafeNamesStayInside | fetch_torrents.py:531-541 | a name is safe exactly if it has no separator of either kind and is not empty, "." or ".." |
| WatchDirectory.OnlyWatchedFilesAreSeen | fetch_torrents.py:544-575 | of the three files of a name only the watched one ends in ".torrent" |
| WatchDirectory.UnsafeNamesGetNoFile | fetch_torrents.py:531-603 | in every behaviour the script never works on an unsafe name and none gets a file |
| WatchDirectory.StepKeepsInv | fetch_torrents.py:544-603 | every system call, failure, kill and rename keeps files complete and writes accounted for |
| WatchDirectory.NoPartialWatchFile | fetch_torrents.py:544-603 | at every moment of every behaviour a watched or loaded file holds all of the data of some write |
| WatchDirectory.WritesAreAccountedFor | fetch_torrents.py:553-603 | at every moment of every behaviour, per name: completed writes are effective removals, files another one was put in place of, and files that are there |
| WatchDirectory.WritesAreConservedIff | fetch_torrents.py:553-603 | completed writes are effective removals plus one if a file is there, throughout a behaviour, if and only if no write is put in place while the name has a file; then no name ever has two |
| WatchDirectory.WritesAreConserved | fetch_torrents.py:553-603 | whatever else fails: if no look fails on a file that is there, completed writes are effective removals plus one if a file is there, and a name has at most one file |
| WatchDirectory.FailedLookHidesAFile | fetch_torrents.py:553-575 | a look that fails on a file that is there ends in two writes, no removal and one file |
| WatchDirectory.PresenceCheckIsExact | fetch_torrents.py:553-556 | whatever the daemon renames before and between the two looks, the check says whether a file is there |
| WatchDirectory.LooksAreExact | fetch_torrents.py:553-587 | in every behaviour with any renames, a check none of whose looks fails ends the operation if and only if the name had a file when it began, and that has not changed |
| WatchDirectory.FailedLookIsAbsence | fetch_torrents.py:553-556 | a look that fails goes on as one that finds nothing |
| WatchDirectory.RemovalLeavesNeither | fetch_torrents.py:1343-1358 | a removal without an error leaves neither file, whatever the daemon renames meanwhile |
| WatchDirectory.RemovalRemoves | fetch_torrents.py:1343-1358 | in every behaviour with any renames, a removal that is neither failed nor killed ends with neither file there, and the files there were are successful removals, but for one lost to a rename |
| WatchDirectory.LoadedFileGoesAnyway | fetch_torrents.py:1352-1358 | if the watched file cannot be removed, the loaded one still is |
| WatchDirectory.WriteArrives | fetch_torrents.py:559-575 | in every behaviour with any renames, a download neither failed nor killed ends with all of its data under the watched name and without its part file |
| WatchDirectory.NoPartIsLeft | fetch_torrents.py:559-575 | a write in which anything else fails leaves no part file, if it is not killed and the part file can be dropped |
| WatchDirectory.FailedDownloadWritesNothing | fetch_torrents.py:578-603 | a failed download changes nothing in the directory |
| Pattern.MatchesIffItFits | fetch_torrents.py:244 | the backtracking matcher finds a match at a position if and only if the text can be cut there as the pattern says |
| Pattern.MatchIsPreferred | fetch_torrents.py:244 | of all ways to cut, it finds the one in which the first item that could differ has its preference, greedy items the longest, lazy ones the shortest |
| Pattern.LastGreedyTakesAll | fetch_torrents.py:244 | a greedy item at the end takes every character it can |
| Pattern.SearchIsLeftmost | fetch_torrents.py:244 | a search finds the match at the first position that has one, or there is none |
| RatioLog.LogFile.Info | fetch_torrents.py:65-67 | only ratio messages reach the file, and the first of a run replaces what an earlier run left |
| RatioLog.LogFile.LogSeedRatios | fetch_torrents.py:1272-1283 | the printing loop appends one marked segment of all torrents, highest ratio first |
| RatioLog.LogFile.GetPreviousRatios | fetch_torrents.py:226-249 | what is read is the readings of the latest segment, with the keys in order of first entry |
| RatioLog.EntryPieces | fetch_torrents.py:244-247 | the pieces of a match: name, blanks, arrow, blanks, digits, point, digits, so the number can be converted |
| RatioLogTheory.LineReadsBackIff | fetch_torrents.py:243-248 | a printed line reads as its name and ratio, with a negative ratio as nothing, if and only if the name has no arrow between blanks followed by a number with a decimal point |
| RatioLogTheory.NoArrowNoInnerEntry | fetch_torrents.py:243-248 | a name without an arrow always satisfies that condition |
| RatioLogTheory.ForeignDigitsAreAnEntry | fetch_torrents.py:244 | digits of other scripts make an inner entry too, as the pattern reads them |
| RatioLogTheory.InnerEntryIsMisread | fetch_torrents.py:243-248 | a name that violates it is read as some other name, whatever the ratio |
| Strings.StripTakesTheBlanks | fetch_torrents.py:243-248 | `strip` takes blanks and nothing else off both ends, and all of them |
| RatioLogTheory.FixedReads | fetch_torrents.py:244-247 | a ratio printed with three decimals reads as the same number |
| RatioLogTheory.FloatIs | fetch_torrents.py:244-247 | digits, a point and any number of decimals read as all the digits over the power of ten of the number of decimals |
| RatioLogTheory.RatioLinesAre | fetch_torrents.py:65-67 | what goes to the file are the messages that begin with "[ratio]" |
| RatioLogTheory.MarkedIff | fetch_torrents.py:234-241 | a segment is marked by the lines that hold the two literal markers |
| RatioLogTheory.NamesAreOfOneLine | fetch_torrents.py:243-248 | a name read from a line holds no line break and no blank at either end |
| RatioLogTheory.EntryIsNoMarker | fetch_torrents.py:233-240 | a printed entry is never taken for a segment marker unless its name holds one |
| RatioLogTheory.HighestFirstSorts | fetch_torrents.py:1273-1277 | the sort is a permutation with descending ratios |
| RatioLogTheory.EqualRatiosStayInOrder | fetch_torrents.py:1273-1277 | equal ratios are printed in the order reported |
| RatioLogTheory.MessageLayout | fetch_torrents.py:1279-1282 | the name stands behind "[ratio] ", the arrow in one column for names up to 50 characters, and the line ends in three decimals |
| RatioLogTheory.RatioLogRoundTrip | fetch_torrents.py:226-249 | after any earlier content, printing and reading gives exactly the names with a non-negative ratio, each with its least |
| RatioLogTheory.DistinctNamesComeBackExactly | fetch_torrents.py:226-249 | of distinct names every non-negative ratio comes back under its name, and nothing else, with the keys in the order printed |
| RatioLogTheory.CutOffRunReadsSoFar | fetch_torrents.py:233-240 | a run cut off while printing leaves, for the next run, the entries printed so far |

## Left out

- The `fetch_*` scrapers, HTTP, DNS, the socket layer below datagrams, and parsing of tracker and scrape URLs, with the address checks around them: candidate lists, scrape results and datagrams are inputs.
- `get_announce_urls` and the fall-through over trackers: only easy members. Its docstring puts the primary tracker last, the code puts it first (torrent_scrape.py:153).
- SHA-1: any function from bytes to bytes.
- `bencode` of `str`, `bytearray` and `bool`, and its `TypeError`: values are what the decoder yields.
- Python's recursion limit and its limit on the digits of an integer: integers and depth are unbounded.
- Floats: ratios are exact thousandths, disk usage an exact quotient, so rounding (a ratio of -0.0001 prints as "-0.000") does not show.
- Decimal digits newer than Unicode 15, and a minus sign in a version part, which cannot follow a split at "-".
- GateOverRuns.CleanupNeverMovesTheGate: versioned distributions only, because the Devuan gate ignores removed history while any Devuan release is held, so a removal may change its decision by design.
- GateOverRuns.LogIsWhatIsRead: names the log can carry, as `RatioLogTheory.WellFormed` says; and the log and the listing of a state show the same ratios, although they are asked for at different moments of a run.
- CleanupTheory.PressureRepeatsToNothing: for a disk that has filled up again beyond the reading that stopped the first pass nothing is promised, and nothing should be.
- `Cleanup.Seeder` and its plans assume distinct torrent ids and names, non-decreasing dates, and a window of at least 1 day for the stagnation verdicts; `RatioHistory.WindowZeroJudgesAtOnce` shows the last is needed.
- Exceptions from the RPC client in the middle of a cleanup loop, corrupt or missing state files, and saving (`json` with sorted keys, temporary file and rename): steps complete and saves succeed.
- ISO date text and time zones: dates are day numbers.
- `is_low_demand_variant`: the filter takes any predicate on names; the order and distinctness of discovered names come from the caller.
- RatioLogTheory.RatioLogRoundTrip: names are on one line, without blank edges and without the text of a marker after the "[ratio]" prefix; the time stamps hold no opening bracket, as the formatter's do.
- Universal newlines and the line terminators of the log file: the log is a list of lines, and a missing file is an empty one.
- Concurrent runs of the script (entrypoint.sh:60-63 starts one after the other), logging levels, environment parsing, `configure_transmission.py`, Docker and CI.
