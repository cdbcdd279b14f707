/** One manifest request, answered from the worker's cache and booked on the tracked buffers. */
module ManifestRequests {
  import opened Basics
  import opened TimeshiftManifest
  import BufferLifecycle

  /** The reply and what becomes of the buffer fit together: the reply is final exactly when the buffer is taken down, a
      manifest counts as heard from now, and any other reply leaves everything as it is. */
  lemma ReplyFitsBooking(w: BufferLifecycle.World, cached: Option<CacheEntry>, v: View)
    requires v.channel in w.buffers && v.alive == (w.buffers[v.channel].pid in w.alive)
    ensures var reply := Answer(cached, v).0;
      var after := BufferLifecycle.ManifestAsked(w, v.channel, v.playlist.Some?, reply.Manifest?);
      && (reply.Fatal? <==> BufferLifecycle.ManifestFatal(w, v.channel, v.playlist.Some?))
      && (reply.Fatal? <==> v.channel !in after.buffers)
      && (reply.Manifest? ==> after.buffers[v.channel] == w.buffers[v.channel].(lastHeartbeat := w.clock))
      && (reply.NotReady? || reply.NoSegments? ==> after.buffers == w.buffers)
  {
    hide Build, Rebuild;
    FinalExactly(cached, v);
    BuiltReply(cached, v);
    BufferLifecycle.ManifestExactly(w, v.channel, v.playlist.Some?, Answer(cached, v).0.Manifest?);
  }

  lemma BuiltReply(cached: Option<CacheEntry>, v: View)
    ensures v.playlist.Some? ==> Answer(cached, v).0.Manifest? || Answer(cached, v).0.NoSegments?
    ensures v.playlist.None? ==> Answer(cached, v).0.Fatal? || Answer(cached, v).0.NotReady?
  {
  }
}
