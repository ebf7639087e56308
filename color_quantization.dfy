/**
 * Palette generation of ColorPalettes: the distinct colours of an image,
 * nearest-colour search, and k-means quantisation (random initial
 * centroids, nearest-centroid clusters, rounded-mean update, at most 20
 * rounds with an early stop once the centroids no longer move).
 *
 * Distances are squared Euclidean distances: the source takes a square
 * root, which is monotone, so every comparison between distances comes out
 * the same.
 */
module ColorQuantization {
  import opened Numeric
  import opened Wrappers
  import opened ImagePixels
  import opened ColorSpace

  // ----- Distinct colours of an image --------------------------------------

  /** The RGB triple of pixel p, alpha ignored. */
  function PixelColor(s: seq<Byte>, p: nat): (c: Rgb)
    requires 4 * p + 2 < |s|
    ensures IsByteColor(c)
  {
    Rgb(s[4 * p], s[4 * p + 1], s[4 * p + 2])
  }

  /** The distinct colours of the first n pixels, in order of first appearance (the insertion order of a Set). */
  function UniqueColors(s: seq<Byte>, n: nat): seq<Rgb>
    requires 4 * n <= |s|
  {
    if n == 0 then []
    else
      var seen := UniqueColors(s, n - 1);
      var c := PixelColor(s, n - 1);
      if c in seen then seen else seen + [c]
  }

  /** No colour is listed twice. */
  lemma {:induction false} UniqueColorsDistinct(s: seq<Byte>, n: nat)
    requires 4 * n <= |s|
    ensures forall i, j :: 0 <= i < j < |UniqueColors(s, n)| ==> UniqueColors(s, n)[i] != UniqueColors(s, n)[j]
  {
    if n > 0 {
      UniqueColorsDistinct(s, n - 1);
    }
  }

  /** A colour is listed exactly when some pixel among the first n has that RGB triple. */
  lemma {:induction false} UniqueColorsMembers(s: seq<Byte>, n: nat)
    requires 4 * n <= |s|
    ensures forall p: nat :: p < n ==> PixelColor(s, p) in UniqueColors(s, n)
    ensures forall c :: c in UniqueColors(s, n) ==> exists p: nat :: p < n && PixelColor(s, p) == c
  {
    if n > 0 {
      UniqueColorsMembers(s, n - 1);
    }
  }

  /** extractUniqueColors: walk the pixels, keeping each RGB triple the first time it is seen. */
  method ExtractUniqueColors(img: ImageData) returns (colors: seq<Rgb>)
    requires img.Valid()
    ensures colors == UniqueColors(img.data[..], img.width * img.height)
  {
    var data := img.data;
    ghost var pixels := img.width * img.height;
    QuadBound(0, pixels);
    colors := [];
    var i := 0;
    ghost var k := 0;
    ghost var s := data[..];
    while i < data.Length
      invariant i == 4 * k && k <= pixels
      invariant colors == UniqueColors(s, k)
    {
      var color := Rgb(data[i], data[i + 1], data[i + 2]);
      assert color == PixelColor(s, k);
      ghost var n := k;
      ghost var seen := colors;
      if color !in colors {
        colors := colors + [color];
      }
      i := i + 4;
      k := k + 1;
      UniqueColorsStep(s, n, k, seen, colors);
    }
  }

  /** One more pixel: its colour is appended unless already listed. */
  lemma {:induction false} UniqueColorsStep(s: seq<Byte>, n: nat, m: nat, seen: seq<Rgb>, next: seq<Rgb>)
    requires m == n + 1 && 4 * m <= |s| && seen == UniqueColors(s, n)
    requires next == if PixelColor(s, n) in seen then seen else seen + [PixelColor(s, n)]
    ensures next == UniqueColors(s, m)
  {
    assert m - 1 == n;
  }

  // ----- Distance and nearest colour ----------------------------------------

  /** colorDistance, squared. */
  function SquaredDistance(a: Rgb, b: Rgb): (d: int)
    ensures d >= 0
    ensures d == 0 <==> a == b
  {
    var dr, dg, db := a.r - b.r, a.g - b.g, a.b - b.b;
    dr * dr + dg * dg + db * db
  }

  /**
   * The index a scan of the first n entries settles on when it replaces its
   * candidate only on a strictly smaller distance: no entry is closer, and
   * every entry before it is farther.
   */
  function NearestIndex(color: Rgb, palette: seq<Rgb>, n: nat): (j: nat)
    requires 0 < n <= |palette|
    ensures j < n
    ensures forall i :: 0 <= i < n ==> SquaredDistance(color, palette[j]) <= SquaredDistance(color, palette[i])
    ensures forall i :: 0 <= i < j ==> SquaredDistance(color, palette[i]) > SquaredDistance(color, palette[j])
  {
    if n == 1 then 0
    else
      var j := NearestIndex(color, palette, n - 1);
      if SquaredDistance(color, palette[n - 1]) < SquaredDistance(color, palette[j]) then n - 1 else j
  }

  /** The nearest entry of a non-empty palette, first among equals. */
  function Nearest(color: Rgb, palette: seq<Rgb>): nat
    requires |palette| > 0
  {
    NearestIndex(color, palette, |palette|)
  }

  /**
   * findNearestColor. An empty palette yields `palette[0]`, undefined, here
   * None; otherwise the first of the closest entries.
   */
  method FindNearestColor(color: Rgb, palette: seq<Rgb>) returns (nearest: Option<Rgb>)
    ensures |palette| == 0 ==> nearest == None
    ensures |palette| > 0 ==> nearest == Some(palette[Nearest(color, palette)])
  {
    var minDistance: Option<int> := None;
    nearest := if |palette| > 0 then Some(palette[0]) else None;
    ghost var best := 0;
    for i := 0 to |palette|
      invariant i == 0 ==> minDistance == None && nearest == (if |palette| > 0 then Some(palette[0]) else None)
      invariant i > 0 ==> best == NearestIndex(color, palette, i)
      invariant i > 0 ==> minDistance == Some(SquaredDistance(color, palette[best])) && nearest == Some(palette[best])
    {
      var distance := SquaredDistance(color, palette[i]);
      if minDistance.None? || distance < minDistance.value {
        minDistance := Some(distance);
        nearest := Some(palette[i]);
        best := i;
      }
    }
  }

  // ----- Clusters -----------------------------------------------------------

  /** The clusters after the first n colours: each colour appended to the cluster of its nearest centroid. */
  function ClustersPrefix(colors: seq<Rgb>, centroids: seq<Rgb>, n: nat): (clusters: seq<seq<Rgb>>)
    requires n <= |colors| && (|centroids| > 0 || n == 0)
    ensures |clusters| == |centroids|
  {
    if n == 0 then seq(|centroids|, _ => [])
    else
      var clusters := ClustersPrefix(colors, centroids, n - 1);
      var j := Nearest(colors[n - 1], centroids);
      clusters[j := clusters[j] + [colors[n - 1]]]
  }

  /** The clusters of assignToClusters: one per centroid. */
  function Clusters(colors: seq<Rgb>, centroids: seq<Rgb>): (clusters: seq<seq<Rgb>>)
    requires |centroids| > 0 || |colors| == 0
    ensures |clusters| == |centroids|
  {
    ClustersPrefix(colors, centroids, |colors|)
  }

  /** Cluster j holds only colours among the first n whose nearest centroid is j. */
  lemma {:induction false} ClustersSound(colors: seq<Rgb>, centroids: seq<Rgb>, n: nat)
    requires n <= |colors| && (|centroids| > 0 || n == 0)
    ensures forall j, x :: 0 <= j < |centroids| && x in ClustersPrefix(colors, centroids, n)[j] ==>
      x in colors[..n] && Nearest(x, centroids) == j
  {
    if n > 0 {
      ClustersSound(colors, centroids, n - 1);
      assert colors[..n] == colors[..n - 1] + [colors[n - 1]];
    }
  }

  /** Each of the first n colours sits in the cluster of its nearest centroid. */
  lemma {:induction false} ClustersComplete(colors: seq<Rgb>, centroids: seq<Rgb>, n: nat)
    requires n <= |colors| && (|centroids| > 0 || n == 0)
    ensures forall i :: 0 <= i < n ==> colors[i] in ClustersPrefix(colors, centroids, n)[Nearest(colors[i], centroids)]
  {
    if n > 0 {
      ClustersComplete(colors, centroids, n - 1);
    }
  }

  /** A colour sits in cluster j exactly when it is one of the colours and centroid j is its nearest. */
  lemma {:induction false} ClustersMembership(colors: seq<Rgb>, centroids: seq<Rgb>)
    requires |centroids| > 0 || |colors| == 0
    ensures forall j, x :: 0 <= j < |centroids| ==>
      (x in Clusters(colors, centroids)[j] <==> x in colors && Nearest(x, centroids) == j)
  {
    ClustersSound(colors, centroids, |colors|);
    ClustersComplete(colors, centroids, |colors|);
    assert colors[..|colors|] == colors;
  }

  /** The total size of a list of clusters. */
  function TotalSize(clusters: seq<seq<Rgb>>): nat {
    if |clusters| == 0 then 0 else TotalSize(clusters[..|clusters| - 1]) + |clusters[|clusters| - 1]|
  }

  /** Growing one cluster by one colour grows the total size by one. */
  lemma {:induction false} TotalSizeGrow(clusters: seq<seq<Rgb>>, j: nat, x: Rgb)
    requires j < |clusters|
    ensures TotalSize(clusters[j := clusters[j] + [x]]) == TotalSize(clusters) + 1
  {
    var grown := clusters[j := clusters[j] + [x]];
    var last := |clusters| - 1;
    if j == last {
      assert grown[..last] == clusters[..last];
    } else {
      TotalSizeGrow(clusters[..last], j, x);
      assert grown[..last] == clusters[..last][j := clusters[j] + [x]];
    }
  }

  /** Empty clusters have total size 0. */
  lemma {:induction false} TotalSizeEmpty(k: nat)
    ensures TotalSize(seq<seq<Rgb>>(k, _ => [])) == 0
  {
    if k > 0 {
      TotalSizeEmpty(k - 1);
      assert seq<seq<Rgb>>(k, _ => [])[..k - 1] == seq<seq<Rgb>>(k - 1, _ => []);
    }
  }

  /** Every colour lands in exactly one cluster: the sizes add up to the number of colours. */
  lemma {:induction false} ClustersPartition(colors: seq<Rgb>, centroids: seq<Rgb>, n: nat)
    requires n <= |colors| && (|centroids| > 0 || n == 0)
    ensures TotalSize(ClustersPrefix(colors, centroids, n)) == n
  {
    if n == 0 {
      TotalSizeEmpty(|centroids|);
    } else {
      ClustersPartition(colors, centroids, n - 1);
      TotalSizeGrow(ClustersPrefix(colors, centroids, n - 1), Nearest(colors[n - 1], centroids), colors[n - 1]);
    }
  }

  /** The inner scan of assignToClusters: the index of the nearest centroid, the first among equals. */
  method ClosestCluster(color: Rgb, centroids: seq<Rgb>) returns (closestCluster: nat)
    requires |centroids| > 0
    ensures closestCluster == Nearest(color, centroids)
  {
    var minDistance: Option<int> := None;
    closestCluster := 0;
    for index := 0 to |centroids|
      invariant index == 0 ==> minDistance == None && closestCluster == 0
      invariant index > 0 ==> closestCluster == NearestIndex(color, centroids, index)
      invariant index > 0 ==> minDistance == Some(SquaredDistance(color, centroids[closestCluster]))
    {
      var distance := SquaredDistance(color, centroids[index]);
      if minDistance.None? || distance < minDistance.value {
        minDistance := Some(distance);
        closestCluster := index;
      }
    }
  }

  /**
   * assignToClusters. With no centroids and some colours the source pushes
   * onto `clusters[0]`, which does not exist; callers must not do that.
   */
  method AssignToClusters(colors: seq<Rgb>, centroids: seq<Rgb>) returns (clusters: seq<seq<Rgb>>)
    requires |centroids| > 0 || |colors| == 0
    ensures clusters == Clusters(colors, centroids)
  {
    clusters := seq(|centroids|, _ => []);
    for i := 0 to |colors|
      invariant clusters == ClustersPrefix(colors, centroids, i)
    {
      var closestCluster := ClosestCluster(colors[i], centroids);
      clusters := clusters[closestCluster := clusters[closestCluster] + [colors[i]]];
    }
  }

  // ----- Centroids ----------------------------------------------------------

  /** Channel ch (0 red, 1 green, 2 blue) of a colour. */
  function Component(c: Rgb, ch: nat): int
    requires ch < 3
  {
    if ch == 0 then c.r else if ch == 1 then c.g else c.b
  }

  /** The channel-wise sum of a cluster, accumulated from the left as reduce does. */
  function Total(cluster: seq<Rgb>): Rgb {
    if |cluster| == 0 then Rgb(0, 0, 0)
    else
      var t := Total(cluster[..|cluster| - 1]);
      var c := cluster[|cluster| - 1];
      Rgb(t.r + c.r, t.g + c.g, t.b + c.b)
  }

  /** `Math.round(sum / n)`. */
  function Mean(sum: int, n: nat): int
    requires n > 0
  {
    RoundHalfUp(sum as real / n as real)
  }

  /** The new centroid of one cluster: [0, 0, 0] when empty, otherwise the rounded mean of each channel. */
  function Centroid(cluster: seq<Rgb>): Rgb {
    if |cluster| == 0 then Rgb(0, 0, 0)
    else
      var t := Total(cluster);
      Rgb(Mean(t.r, |cluster|), Mean(t.g, |cluster|), Mean(t.b, |cluster|))
  }

  /** updateCentroids: one centroid per cluster. */
  function UpdateCentroids(clusters: seq<seq<Rgb>>): (centroids: seq<Rgb>)
    ensures |centroids| == |clusters|
    ensures forall j :: 0 <= j < |clusters| && |clusters[j]| == 0 ==> centroids[j] == Rgb(0, 0, 0)
  {
    seq(|clusters|, j requires 0 <= j < |clusters| => Centroid(clusters[j]))
  }

  /** When every colour of a cluster has channel ch in [lo, hi], the sum of that channel is within n * lo and n * hi. */
  lemma {:induction false} TotalWithin(cluster: seq<Rgb>, ch: nat, lo: int, hi: int)
    requires ch < 3
    requires forall c :: c in cluster ==> lo <= Component(c, ch) <= hi
    ensures |cluster| * lo <= Component(Total(cluster), ch) <= |cluster| * hi
  {
    if |cluster| > 0 {
      var init := cluster[..|cluster| - 1];
      assert forall c :: c in init ==> c in cluster;
      TotalWithin(init, ch, lo, hi);
      TotalStep(cluster, ch);
      MulStep(|init|, lo);
      MulStep(|init|, hi);
    }
  }

  /** Adding one colour to a cluster adds its channel to the channel's sum. */
  lemma {:induction false} TotalStep(cluster: seq<Rgb>, ch: nat)
    requires ch < 3 && |cluster| > 0
    ensures Component(Total(cluster), ch)
      == Component(Total(cluster[..|cluster| - 1]), ch) + Component(cluster[|cluster| - 1], ch)
  {
  }

  /** (n + 1) * x == n * x + x. */
  lemma {:induction false} MulStep(n: nat, x: int)
    ensures (n + 1) * x == n * x + x
  {
  }

  /** A mean of n values within [lo, hi], rounded, is within [lo, hi]. */
  lemma {:induction false} MeanWithin(sum: int, n: nat, lo: int, hi: int)
    requires n > 0 && n * lo <= sum <= n * hi
    ensures lo <= Mean(sum, n) <= hi
  {
    assert (n * lo) as real == lo as real * n as real;
    assert (n * hi) as real == hi as real * n as real;
    DivideWithin(sum as real, n as real, lo as real, hi as real);
    RoundHalfUpWithin(sum as real / n as real, lo, hi);
  }

  /** lo * d <= a <= hi * d gives lo <= a / d <= hi for d > 0. */
  lemma {:induction false} DivideWithin(a: real, d: real, lo: real, hi: real)
    requires d > 0.0 && lo * d <= a <= hi * d
    ensures lo <= a / d <= hi
  {
    assert a / d - lo == (a - lo * d) / d;
    assert hi - a / d == (hi * d - a) / d;
  }

  /** The centroid of a non-empty cluster lies, in every channel, within the cluster's range of that channel. */
  lemma {:induction false} CentroidWithin(cluster: seq<Rgb>, ch: nat, lo: int, hi: int)
    requires ch < 3 && |cluster| > 0
    requires forall c :: c in cluster ==> lo <= Component(c, ch) <= hi
    ensures lo <= Component(Centroid(cluster), ch) <= hi
  {
    TotalWithin(cluster, ch, lo, hi);
    MeanWithin(Component(Total(cluster), ch), |cluster|, lo, hi);
  }

  /** Byte colours have byte centroids, and a cluster of copies of one colour has that colour as its centroid. */
  lemma {:induction false} CentroidOfBytes(cluster: seq<Rgb>)
    requires forall c :: c in cluster ==> IsByteColor(c)
    ensures IsByteColor(Centroid(cluster))
    ensures |cluster| > 0 && (forall c :: c in cluster ==> c == cluster[0]) ==> Centroid(cluster) == cluster[0]
  {
    if |cluster| > 0 {
      CentroidWithin(cluster, 0, 0, 255);
      CentroidWithin(cluster, 1, 0, 255);
      CentroidWithin(cluster, 2, 0, 255);
      if forall c :: c in cluster ==> c == cluster[0] {
        var c0 := cluster[0];
        CentroidWithin(cluster, 0, c0.r, c0.r);
        CentroidWithin(cluster, 1, c0.g, c0.g);
        CentroidWithin(cluster, 2, c0.b, c0.b);
      }
    }
  }

  /** centroidsEqual: the same length and the same channels at every index, that is, equal lists. */
  predicate CentroidsEqual(centroids1: seq<Rgb>, centroids2: seq<Rgb>) {
    && |centroids1| == |centroids2|
    && forall i :: 0 <= i < |centroids1| ==>
         centroids1[i].r == centroids2[i].r && centroids1[i].g == centroids2[i].g && centroids1[i].b == centroids2[i].b
  }

  /** Comparing channel by channel is list equality. */
  lemma {:induction false} CentroidsEqualIsEquality(centroids1: seq<Rgb>, centroids2: seq<Rgb>)
    ensures CentroidsEqual(centroids1, centroids2) <==> centroids1 == centroids2
  {
    if CentroidsEqual(centroids1, centroids2) {
      assert forall i :: 0 <= i < |centroids1| ==> centroids1[i] == centroids2[i];
    }
  }

  // ----- Initial centroids and the k-means loop -----------------------------

  /** `Math.floor(u * n)` for a draw u in [0, 1): an index into a list of n > 0 entries. */
  function RandomIndex(u: real, n: nat): (i: int)
    requires 0.0 <= u < 1.0 && n > 0
    ensures 0 <= i < n
  {
    ScaleBelow(u, n);
    (u * n as real).Floor
  }

  /** 0 <= u * n < n for u in [0, 1) and n > 0. */
  lemma {:induction false} ScaleBelow(u: real, n: nat)
    requires 0.0 <= u < 1.0 && n > 0
    ensures 0.0 <= u * n as real < n as real
  {
  }

  /** Draws that Math.random could have produced: each in [0, 1). */
  predicate Draws(randoms: seq<real>) {
    forall i :: 0 <= i < |randoms| ==> 0.0 <= randoms[i] < 1.0
  }

  /**
   * The initial centroids of initializeCentroids: for i < k, the colour at
   * the index chosen by the i-th draw. Every one is one of the colours.
   */
  function InitialCentroids(colors: seq<Rgb>, k: int, randoms: seq<real>): (centroids: seq<Rgb>)
    requires k <= 0 || (|colors| > 0 && |randoms| >= k && Draws(randoms))
    ensures |centroids| == if k <= 0 then 0 else k
    ensures forall c :: c in centroids ==> c in colors
  {
    if k <= 0 then []
    else seq(k, i requires 0 <= i < k => colors[RandomIndex(randoms[i], |colors|)])
  }

  /** initializeCentroids, with the i-th call of Math.random answered by randoms[i]. */
  method InitializeCentroids(colors: seq<Rgb>, k: int, randoms: seq<real>) returns (centroids: seq<Rgb>)
    requires k <= 0 || (|colors| > 0 && |randoms| >= k && Draws(randoms))
    ensures centroids == InitialCentroids(colors, k, randoms)
  {
    centroids := [];
    var i := 0;
    while i < k
      invariant 0 <= i <= (if k <= 0 then 0 else k)
      invariant |centroids| == i
      invariant forall j :: 0 <= j < i ==> centroids[j] == colors[RandomIndex(randoms[j], |colors|)]
    {
      var randomIndex := RandomIndex(randoms[i], |colors|);
      centroids := centroids + [colors[randomIndex]];
      i := i + 1;
    }
  }

  /** At most `rounds` assign/update rounds from the given centroids, stopping once an update changes nothing. */
  function Lloyd(colors: seq<Rgb>, centroids: seq<Rgb>, rounds: nat): (result: seq<Rgb>)
    requires |centroids| > 0 || |colors| == 0
    ensures |result| == |centroids|
    decreases rounds
  {
    if rounds == 0 then centroids
    else
      var next := UpdateCentroids(Clusters(colors, centroids));
      if CentroidsEqual(next, centroids) then next else Lloyd(colors, next, rounds - 1)
  }

  /** When an update reproduces the centroids, the remaining rounds stop with that update. */
  lemma {:induction false} LloydSettled(colors: seq<Rgb>, centroids: seq<Rgb>, next: seq<Rgb>, rounds: nat)
    requires rounds > 0 && (|centroids| > 0 || |colors| == 0)
    requires next == UpdateCentroids(Clusters(colors, centroids)) && CentroidsEqual(next, centroids)
    ensures Lloyd(colors, centroids, rounds) == next
  {
  }

  /** When an update moves the centroids, the remaining rounds continue from the update with one round fewer. */
  lemma {:induction false} LloydAdvance(colors: seq<Rgb>, centroids: seq<Rgb>, next: seq<Rgb>, rounds: nat, rest: nat)
    requires rounds == rest + 1 && (|centroids| > 0 || |colors| == 0)
    requires next == UpdateCentroids(Clusters(colors, centroids)) && !CentroidsEqual(next, centroids)
    ensures Lloyd(colors, next, rest) == Lloyd(colors, centroids, rounds)
  {
    assert rounds - 1 == rest;
  }

  /** The error quantizeColors runs into with no centroids and some colours. */
  const NoClusterError := "TypeError: Cannot read properties of undefined (reading 'push')"

  /**
   * quantizeColors: the colours themselves when there are at most k,
   * otherwise k centroids after at most 20 rounds. With k <= 0 and some
   * colours the source fails inside assignToClusters.
   */
  function Quantized(colors: seq<Rgb>, k: int, randoms: seq<real>): (r: Result<seq<Rgb>, string>)
    requires |colors| <= k || k <= 0 || (|randoms| >= k && Draws(randoms))
    ensures |colors| <= k ==> r == Ok(colors)
    ensures r.Err? <==> k <= 0 < |colors|
    ensures r.Ok? && |colors| > k ==> |r.value| == if k <= 0 then 0 else k
  {
    if |colors| <= k then Ok(colors)
    else
      var initial := InitialCentroids(colors, k, randoms);
      if |initial| == 0 && |colors| > 0 then Err(NoClusterError)
      else Ok(Lloyd(colors, initial, 20))
  }

  /** quantizeColors, with the draws of Math.random supplied by the caller. */
  method QuantizeColors(colors: seq<Rgb>, k: int, randoms: seq<real>) returns (r: Result<seq<Rgb>, string>)
    requires |colors| <= k || k <= 0 || (|randoms| >= k && Draws(randoms))
    ensures r == Quantized(colors, k, randoms)
  {
    if |colors| <= k {
      return Ok(colors);
    }
    var centroids := InitializeCentroids(colors, k, randoms);
    if |centroids| == 0 && |colors| > 0 {
      // assignToClusters would push onto clusters[0] of an empty list.
      return Err(NoClusterError);
    }
    centroids := KMeans(colors, centroids);
    return Ok(centroids);
  }

  /** The k-means rounds of quantizeColors: at most 20, leaving early once an update reproduces the centroids. */
  method KMeans(colors: seq<Rgb>, initial: seq<Rgb>) returns (centroids: seq<Rgb>)
    requires |initial| > 0 || |colors| == 0
    ensures centroids == Lloyd(colors, initial, 20)
  {
    ghost var goal := Lloyd(colors, initial, 20);
    ghost var rounds: nat := 20;
    centroids := initial;
    var iteration := 0;
    while iteration < 20
      invariant 0 <= iteration <= 20 && rounds == 20 - iteration
      invariant |centroids| == |initial|
      invariant Lloyd(colors, centroids, rounds) == goal
    {
      var clusters := AssignToClusters(colors, centroids);
      var previousCentroids := centroids;
      centroids := UpdateCentroids(clusters);
      if CentroidsEqual(centroids, previousCentroids) {
        LloydSettled(colors, previousCentroids, centroids, rounds);
        return;
      }
      ghost var before := rounds;
      iteration := iteration + 1;
      rounds := rounds - 1;
      LloydAdvance(colors, previousCentroids, centroids, before, rounds);
    }
  }

  /** Every colour of every cluster is one of the colours. */
  lemma {:induction false} ClustersFromColors(colors: seq<Rgb>, centroids: seq<Rgb>)
    requires |centroids| > 0 || |colors| == 0
    ensures forall j, x :: 0 <= j < |centroids| && x in Clusters(colors, centroids)[j] ==> x in colors
  {
    ClustersSound(colors, centroids, |colors|);
    assert colors[..|colors|] == colors;
  }

  /** Rounds of k-means on byte colours from byte centroids give byte centroids. */
  lemma {:induction false} LloydBytes(colors: seq<Rgb>, centroids: seq<Rgb>, rounds: nat)
    requires |centroids| > 0 || |colors| == 0
    requires forall c :: c in colors ==> IsByteColor(c)
    requires forall c :: c in centroids ==> IsByteColor(c)
    ensures forall c :: c in Lloyd(colors, centroids, rounds) ==> IsByteColor(c)
    decreases rounds
  {
    if rounds > 0 {
      var clusters := Clusters(colors, centroids);
      var next := UpdateCentroids(clusters);
      ClustersFromColors(colors, centroids);
      forall j | 0 <= j < |clusters|
        ensures IsByteColor(next[j])
      {
        CentroidOfBytes(clusters[j]);
      }
      if !CentroidsEqual(next, centroids) {
        LloydBytes(colors, next, rounds - 1);
      }
    }
  }

  /** A quantised palette of byte colours consists of byte colours. */
  lemma {:induction false} QuantizedBytes(colors: seq<Rgb>, k: int, randoms: seq<real>)
    requires |colors| <= k || k <= 0 || (|randoms| >= k && Draws(randoms))
    requires forall c :: c in colors ==> IsByteColor(c)
    ensures Quantized(colors, k, randoms).Ok? ==> forall c :: c in Quantized(colors, k, randoms).value ==> IsByteColor(c)
  {
    if k < |colors| {
      var initial := InitialCentroids(colors, k, randoms);
      if |initial| > 0 || |colors| == 0 {
        LloydBytes(colors, initial, 20);
      }
    }
  }

  /**
   * generatePaletteFromImage: the distinct colours of the image, quantised
   * to colorCount colours, sixteen when the caller leaves it out.
   */
  method GeneratePaletteFromImage(img: ImageData, colorCount: Option<int>, randoms: seq<real>) returns (r: Result<seq<Rgb>, string>)
    requires img.Valid()
    requires colorCount.GetOr(16) <= 0 || (|randoms| >= colorCount.GetOr(16) && Draws(randoms))
    ensures r == Quantized(UniqueColors(img.data[..], img.width * img.height), colorCount.GetOr(16), randoms)
  {
    var colors := ExtractUniqueColors(img);
    r := QuantizeColors(colors, colorCount.GetOr(16), randoms);
  }
}
