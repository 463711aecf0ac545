/**
  The receiver: for each packet the raw socket delivers, archive the received
  bytes under a name derived from the arrival time, then read the protocol
  number and the IPv4 source address out of the first 20 bytes.
 */
module Receiver {
  import opened Bytes
  import opened Wrappers
  import opened Decimal

  datatype Domain = IPv4 | IPv6

  datatype Report = Report(
    protocol: byte,
    arrivalMicros: nat,
    sourceAddress: seq<byte>,
    formattedSource: string,
    byteCount: nat)

  /** Slicing `received_data[..20]` out of fewer than 20 bytes panics. */
  datatype ReceiveError = ShortHeader(size: nat)

  /** Everything one packet causes: the file written and what the header parse yields. */
  datatype Step = Step(archivePath: string, archivedBytes: seq<byte>, report: Result<Report, ReceiveError>)

  /**
    One delivery of `recv_from`: the receive buffer, the count it returned,
    and the clock read after it. The count never exceeds the buffer.
   */
  datatype Delivery = Delivery(buffer: seq<byte>, size: nat, arrivalMicros: nat)
  type Arrival = d: Delivery | d.size <= |d.buffer| witness Delivery([], 0, 0)

  const IpHeaderLength: nat := 20
  const ProtocolOffset: nat := 9
  const SourceOffset: nat := 12
  const ArchiveDir: string := "/tmp/hdp"

  /** The IP-version argument: 4 and 6 pick a domain, every other value is rejected. */
  function SelectDomain(ipVersion: byte): (r: Option<Domain>)
    ensures r == Some(IPv4) <==> ipVersion == 4
    ensures r == Some(IPv6) <==> ipVersion == 6
    ensures r.None? <==> ipVersion != 4 && ipVersion != 6
  {
    if ipVersion == 4 then Some(IPv4)
    else if ipVersion == 6 then Some(IPv6)
    else None
  }

  /** The four octets of an IPv4 address in dotted-decimal form. */
  function FormatIpv4(a: seq<byte>): (r: string)
    requires |a| == 4
    ensures 7 <= |r| <= 15
  {
    ShowByteLength(a[0]);
    ShowByteLength(a[1]);
    ShowByteLength(a[2]);
    ShowByteLength(a[3]);
    Show(a[0]) + "." + Show(a[1]) + "." + Show(a[2]) + "." + Show(a[3])
  }

  /** An octet is written with one to three digits. */
  lemma ShowByteLength(b: byte)
    ensures 1 <= |Show(b)| <= 3
  {
    if b >= 10 {
      assert |Show(b)| == |Show(b / 10)| + 1;
      if b / 10 >= 10 {
        assert |Show(b / 10)| == |Show(b / 100)| + 1;
      }
    }
  }

  const ArchivePrefix: string := ArchiveDir + "/hdp_"
  const ArchiveSuffix: string := ".bin"

  /**
    The file a packet arriving at `micros` microseconds since the epoch is
    appended to: the fixed prefix and suffix around the decimal timestamp,
    which reads back as `micros`.
   */
  function ArchivePath(micros: nat): (r: string)
    ensures |r| > |ArchivePrefix| + |ArchiveSuffix|
    ensures r[..|ArchivePrefix|] == "/tmp/hdp/hdp_" && r[|r| - |ArchiveSuffix|..] == ".bin"
    ensures var digits := r[|ArchivePrefix|..|r| - |ArchiveSuffix|];
      IsCanonical(digits) && Value(digits) == micros
  {
    var r := ArchivePrefix + Show(micros) + ArchiveSuffix;
    assert r[|ArchivePrefix|..|r| - |ArchiveSuffix|] == Show(micros);
    ValueOfShow(micros);
    r
  }

  /** The pieces of `s` between occurrences of `sep`, as Rust's `str::split` yields them. */
  function Split(s: string, sep: char): (r: seq<string>)
    ensures |r| >= 1
  {
    if s == [] then [[]]
    else
      var init := Split(s[..|s| - 1], sep);
      var last := s[|s| - 1];
      if last == sep then init + [[]]
      else init[..|init| - 1] + [init[|init| - 1] + [last]]
  }

  lemma {:induction false} SplitNoSep(x: string, sep: char)
    requires sep !in x
    ensures Split(x, sep) == [x]
  {
    if x != [] {
      SplitNoSep(x[..|x| - 1], sep);
      assert x[..|x| - 1] + [x[|x| - 1]] == x;
    }
  }

  lemma {:induction false} SplitBefore(x: string, sep: char, y: string)
    requires sep !in y
    ensures Split(x + [sep] + y, sep) == Split(x, sep) + [y]
  {
    var s := x + [sep] + y;
    if y == [] {
      assert s[..|s| - 1] == x;
    } else {
      var y' := y[..|y| - 1];
      assert s[..|s| - 1] == x + [sep] + y';
      SplitBefore(x, sep, y');
      assert y' + [y[|y| - 1]] == y;
    }
  }

  /** The number of occurrences of `c` in `s`. */
  function Occurrences(s: string, c: char): (r: nat) {
    if s == [] then 0 else Occurrences(s[1..], c) + (if s[0] == c then 1 else 0)
  }

  lemma {:induction false} OccurrencesAppend(s: string, t: string, c: char)
    ensures Occurrences(s + t, c) == Occurrences(s, c) + Occurrences(t, c)
  {
    if s == [] {
      assert s + t == t;
    } else {
      assert (s + t)[0] == s[0] && (s + t)[1..] == s[1..] + t;
      OccurrencesAppend(s[1..], t, c);
    }
  }

  lemma {:induction false} OccurrencesAbsent(s: string, c: char)
    requires c !in s
    ensures Occurrences(s, c) == 0
  {
    if s != [] {
      OccurrencesAbsent(s[1..], c);
    }
  }

  lemma SplitFour(d0: string, d1: string, d2: string, d3: string)
    requires '.' !in d0 && '.' !in d1 && '.' !in d2 && '.' !in d3
    ensures Split(d0 + "." + d1 + "." + d2 + "." + d3, '.') == [d0, d1, d2, d3]
  {
    assert "." == ['.'];
    SplitNoSep(d0, '.');
    SplitBefore(d0, '.', d1);
    SplitBefore(d0 + "." + d1, '.', d2);
    SplitBefore(d0 + "." + d1 + "." + d2, '.', d3);
  }

  /**
    The dotted form splits at '.' into exactly four pieces, the canonical
    decimal forms of the four octets in order.
   */
  lemma FormatIpv4Pieces(a: seq<byte>)
    requires |a| == 4
    ensures Split(FormatIpv4(a), '.') == [Show(a[0]), Show(a[1]), Show(a[2]), Show(a[3])]
    ensures forall k :: 0 <= k < 4 ==>
      IsCanonical(Split(FormatIpv4(a), '.')[k]) && Value(Split(FormatIpv4(a), '.')[k]) == a[k]
  {
    var d0, d1, d2, d3 := Show(a[0]), Show(a[1]), Show(a[2]), Show(a[3]);
    ShowHasNo(a[0], '.');
    ShowHasNo(a[1], '.');
    ShowHasNo(a[2], '.');
    ShowHasNo(a[3], '.');
    SplitFour(d0, d1, d2, d3);
    ValueOfShow(a[0]);
    ValueOfShow(a[1]);
    ValueOfShow(a[2]);
    ValueOfShow(a[3]);
  }

  /** The dotted form holds exactly three '.' characters. */
  lemma FormatIpv4Dots(a: seq<byte>)
    requires |a| == 4
    ensures Occurrences(FormatIpv4(a), '.') == 3
  {
    var d0, d1, d2, d3 := Show(a[0]), Show(a[1]), Show(a[2]), Show(a[3]);
    ShowHasNo(a[0], '.');
    ShowHasNo(a[1], '.');
    ShowHasNo(a[2], '.');
    ShowHasNo(a[3], '.');
    OccurrencesAbsent(d0, '.');
    OccurrencesAbsent(d1, '.');
    OccurrencesAbsent(d2, '.');
    OccurrencesAbsent(d3, '.');
    assert Occurrences(".", '.') == 1;
    OccurrencesAppend(d0, ".", '.');
    OccurrencesAppend(d0 + ".", d1, '.');
    OccurrencesAppend(d0 + "." + d1, ".", '.');
    OccurrencesAppend(d0 + "." + d1 + ".", d2, '.');
    OccurrencesAppend(d0 + "." + d1 + "." + d2, ".", '.');
    OccurrencesAppend(d0 + "." + d1 + "." + d2 + ".", d3, '.');
  }

  lemma FormatIpv4Example()
    ensures FormatIpv4([10, 0, 0, 1]) == "10.0.0.1"
  {
  }

  /** Distinct addresses are formatted differently. */
  lemma FormatIpv4Injective(a: seq<byte>, b: seq<byte>)
    requires |a| == 4 && |b| == 4 && FormatIpv4(a) == FormatIpv4(b)
    ensures a == b
  {
    FormatIpv4Pieces(a);
    FormatIpv4Pieces(b);
    assert forall k :: 0 <= k < 4 ==> a[k] == b[k];
  }

  /** Packets arriving at distinct microseconds are archived to distinct files. */
  lemma ArchivePathInjective(t1: nat, t2: nat)
    requires ArchivePath(t1) == ArchivePath(t2)
    ensures t1 == t2
  {
    var prefix := ArchiveDir + "/hdp_";
    var p1, p2 := ArchivePath(t1), ArchivePath(t2);
    assert |Show(t1)| == |Show(t2)|;
    assert Show(t1) == p1[|prefix|..|p1| - 4];
    assert Show(t2) == p2[|prefix|..|p2| - 4];
    ShowInjective(t1, t2);
  }

  /** Handle one packet: archive its bytes, then parse the IPv4 header. */
  function ReceiveStep(buffer: seq<byte>, size: nat, arrivalMicros: nat): (st: Step)
    requires size <= |buffer|
    ensures st.archivePath == ArchivePath(arrivalMicros) && st.archivedBytes == buffer[..size]
    ensures st.report.Err? <==> size < IpHeaderLength
    ensures st.report.Ok? ==>
      && st.report.value.protocol == buffer[ProtocolOffset]
      && st.report.value.sourceAddress == buffer[SourceOffset..SourceOffset + 4]
      && st.report.value.formattedSource == FormatIpv4(buffer[SourceOffset..SourceOffset + 4])
      && st.report.value.byteCount == size
      && st.report.value.arrivalMicros == arrivalMicros
  {
    var receivedData := buffer[..size];
    var report :=
      if |receivedData| < IpHeaderLength then Err(ShortHeader(size))
      else
        var ipHeader := receivedData[..IpHeaderLength];
        var protocol := ipHeader[ProtocolOffset];
        var srcIp := ipHeader[SourceOffset..SourceOffset + 4];
        Ok(Report(protocol, arrivalMicros, srcIp, FormatIpv4(srcIp), size));
    Step(ArchivePath(arrivalMicros), receivedData, report)
  }

  /** Bytes of the receive buffer beyond `size` never influence the outcome. */
  lemma ReceiveStepReadsOnlyPrefix(b1: seq<byte>, b2: seq<byte>, size: nat, arrivalMicros: nat)
    requires size <= |b1| && size <= |b2| && b1[..size] == b2[..size]
    ensures ReceiveStep(b1, size, arrivalMicros) == ReceiveStep(b2, size, arrivalMicros)
  {
  }

  /** The archive directory as a map from file name to contents; files are opened in append mode. */
  function AppendFile(files: map<string, seq<byte>>, path: string, bytes: seq<byte>): (r: map<string, seq<byte>>)
    ensures r.Keys == files.Keys + {path}
    ensures r[path] == (if path in files then files[path] else []) + bytes
    ensures forall p :: p in files && p != path ==> r[p] == files[p]
  {
    files[path := (if path in files then files[path] else []) + bytes]
  }

  /** The archive after `arrivals` have been handled in order, starting from `files`. */
  function ArchiveAfter(files: map<string, seq<byte>>, arrivals: seq<Arrival>): (r: map<string, seq<byte>>)
    ensures r.Keys == files.Keys + ArchivePaths(arrivals)
  {
    if arrivals == [] then files
    else
      var a := arrivals[|arrivals| - 1];
      AppendFile(ArchiveAfter(files, arrivals[..|arrivals| - 1]), ArchivePath(a.arrivalMicros), a.buffer[..a.size])
  }

  /** The names of the files that `arrivals` are appended to. */
  function ArchivePaths(arrivals: seq<Arrival>): (r: set<string>)
    ensures |arrivals| > 0 ==> ArchivePath(arrivals[|arrivals| - 1].arrivalMicros) in r
  {
    if arrivals == [] then {}
    else ArchivePaths(arrivals[..|arrivals| - 1]) + {ArchivePath(arrivals[|arrivals| - 1].arrivalMicros)}
  }

  /** Every name in `ArchivePaths(arrivals)` is that of one of the arrivals. */
  lemma {:induction false} ArchivePathsFrom(arrivals: seq<Arrival>, p: string) returns (j: nat)
    requires p in ArchivePaths(arrivals)
    ensures j < |arrivals| && p == ArchivePath(arrivals[j].arrivalMicros)
  {
    var n := |arrivals|;
    if p == ArchivePath(arrivals[n - 1].arrivalMicros) {
      j := n - 1;
    } else {
      j := ArchivePathsFrom(arrivals[..n - 1], p);
    }
  }

  /**
    When no arrival time repeats and the archive held none of their files
    before, each packet's file holds exactly the bytes received for it.
   */
  lemma {:induction false} ArchiveHoldsEachPacket(files: map<string, seq<byte>>, arrivals: seq<Arrival>, k: nat)
    requires k < |arrivals|
    requires forall i, j :: 0 <= i < j < |arrivals| ==> arrivals[i].arrivalMicros != arrivals[j].arrivalMicros
    requires forall i :: 0 <= i < |arrivals| ==> ArchivePath(arrivals[i].arrivalMicros) !in files
    ensures ArchivePath(arrivals[k].arrivalMicros) in ArchiveAfter(files, arrivals)
    ensures ArchiveAfter(files, arrivals)[ArchivePath(arrivals[k].arrivalMicros)]
         == arrivals[k].buffer[..arrivals[k].size]
  {
    var n := |arrivals|;
    var init := arrivals[..n - 1];
    var last := arrivals[n - 1];
    if k == n - 1 {
      var p := ArchivePath(last.arrivalMicros);
      if p in ArchiveAfter(files, init) {
        var j := ArchivePathsFrom(init, p);
        ArchivePathInjective(init[j].arrivalMicros, last.arrivalMicros);
        assert false;
      }
    } else {
      assert forall i :: 0 <= i < |init| ==> init[i] == arrivals[i];
      ArchiveHoldsEachPacket(files, init, k);
      if ArchivePath(last.arrivalMicros) == ArchivePath(arrivals[k].arrivalMicros) {
        ArchivePathInjective(last.arrivalMicros, arrivals[k].arrivalMicros);
        assert false;
      }
    }
  }

  lemma ArchiveAfterNext(files: map<string, seq<byte>>, arrivals: seq<Arrival>, i: nat)
    requires i < |arrivals|
    ensures ArchiveAfter(files, arrivals[..i + 1])
         == AppendFile(ArchiveAfter(files, arrivals[..i]),
                       ArchivePath(arrivals[i].arrivalMicros), arrivals[i].buffer[..arrivals[i].size])
  {
    assert arrivals[..i + 1][..i] == arrivals[..i];
  }

  /** Reports for the arrivals handled so far. */
  ghost predicate Reported(arrivals: seq<Arrival>, rows: seq<Report>) {
    |rows| <= |arrivals| &&
    forall k :: 0 <= k < |rows| ==>
      (arrivals[k].size >= IpHeaderLength &&
       rows[k] == ReceiveStep(arrivals[k].buffer, arrivals[k].size, arrivals[k].arrivalMicros).report.value)
  }

  lemma ReportsExtend(arrivals: seq<Arrival>, rows: seq<Report>, r: Report)
    requires Reported(arrivals, rows) && |rows| < |arrivals|
    requires ReceiveStep(arrivals[|rows|].buffer, arrivals[|rows|].size, arrivals[|rows|].arrivalMicros).report == Ok(r)
    ensures Reported(arrivals, rows + [r])
  {
  }

  /**
    A finite run of the receiver's endless loop over `arrivals`, starting
    from the archive `files`. The loop stops (the process panics) at the
    first packet shorter than an IPv4 header, after archiving it.
   */
  method Serve(files: map<string, seq<byte>>, arrivals: seq<Arrival>)
    returns (archive: map<string, seq<byte>>, rows: seq<Report>, panicked: bool)
    ensures panicked <==> exists k :: 0 <= k < |arrivals| && arrivals[k].size < IpHeaderLength
    ensures panicked ==> |rows| < |arrivals| && arrivals[|rows|].size < IpHeaderLength
    ensures !panicked ==> |rows| == |arrivals|
    ensures Reported(arrivals, rows)
    ensures archive == ArchiveAfter(files, arrivals[..if panicked then |rows| + 1 else |rows|])
  {
    archive, rows, panicked := files, [], false;
    var i := 0;
    while i < |arrivals|
      invariant 0 <= i <= |arrivals| && |rows| == i
      invariant Reported(arrivals, rows)
      invariant archive == ArchiveAfter(files, arrivals[..i])
    {
      var a := arrivals[i];
      var step := ReceiveStep(a.buffer, a.size, a.arrivalMicros);
      archive := AppendFile(archive, step.archivePath, step.archivedBytes);
      ArchiveAfterNext(files, arrivals, i);
      if step.report.Err? {
        panicked := true;
        return;
      }
      ReportsExtend(arrivals, rows, step.report.value);
      rows := rows + [step.report.value];
      i := i + 1;
    }
    assert arrivals[..i] == arrivals;
  }
}
